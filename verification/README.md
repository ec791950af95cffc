# mapping_whisperer in Dafny

mapping_whisperer turns a DeZign data-model file (`.dez`, an XML document) into
spreadsheet mapping specifications. This project models the pure logic of that pipeline
and proves what it promises. The pipeline has six pieces:

- **The model extractor** (`utils/dez_parser.py`). It reads the entities of the
  document, a map from entity ID to name, a foreign-key index built from the
  relationships, and each entity's primary-key set. It groups the `NN_source_<kind>_MM`
  properties into the entity's source list, and it takes the partition and cluster
  columns from the `table_options` text. For each attribute it builds a field record
  with the key role, the flags, the lineage and the default triple.
- **The worksheet helpers** (`utils/helpers.py`), modelled over an abstract worksheet
  (a finite map from (row, column) to a cell value):
  - header normalisation and the header-row search;
  - the collision-free column map;
  - the two renaming passes over merged header cells;
  - the metadata copy and the table copy.
- **Entity selection** (`utils/cli_selector.py`, `convert_dez_to_xlsx.py`):
  - the grouping of entities per diagram;
  - the global numbering;
  - the parse of the typed comma-separated answer;
  - the "empty selection means all" export filter;
  - the "Will export:" line.
- **Type-name conversion** (`utils/dez_to_bq_datatypes.py`). It rewrites exact
  `<DTLISTNAME>K</DTLISTNAME>` tags to BigQuery type names, and derives the output
  path.
- **The pure rules of the older stand-alone script** (`inputs/DezignToMapping.py`):
  - the slicing of user-defined property (UDP) names;
  - the relationships of the chosen diagram;
  - the not-null and sourced/derived columns;
  - per-attribute lineage;
  - the default triple;
  - the de-duplicated entity source list.

Modules, one per concern:

- `wrappers.dfy`: `Option` and `Result`.
- `text.dfy`: ASCII string primitives with Python's meaning (`strip`, `lower`, `upper`,
  `isdigit`, `int`, `str`, `split`, `join`, `replace`, slicing, `find`, `rfind`).
- `collections.dfy`:
  - `Seqs`: `dict.fromkeys` de-duplication;
  - `Dict`: Python dicts as insertion-ordered association lists;
  - `StringOrder`: `sorted` on strings.
- `document.dfy`: the abstract `.dez` tree. `findtext` is an `Option<string>`: `None`
  for a missing element, `Some("")` for an empty one.
- `defaults.dfy`, `table_options.dfy`, `lineage.dfy`, `dez_parser.dfy`: the extractor.
- `helpers.dfy`, `cli_selector.dfy`, `convert.dfy`, `bq_types.dfy`, `script.dfy`: the
  remaining pieces, in the order listed above.

Where reading the code and reading its documentation differ, the model follows the code:

- Entity sources are grouped by the LEADING number of `NN_source_<kind>_MM`
  (utils/dez_parser.py:149). They are not grouped by the trailing one.
- A field's `src_table` and `src_attr` join EVERY matching property with `", "`, in
  document order (utils/dez_parser.py:194-213). They are not "last one wins".
- `resolve_defaults` upper-cases the datatype, and its effective-start test wins over
  the effective-end test. The older script matches exact names and types.

## Model

| member | source | states |
|---|---|---|
| Dict.FromPairs | utils/dez_parser.py:104-108 | a dict comprehension: keys distinct, in first-occurrence order, each holding the value of its last pair |
| Dict.Put | utils/dez_parser.py:117-121 | `d[k] = v`: an existing key keeps its place and takes the new value, a new key is appended, other keys are unchanged |
| Seqs.Dedup | inputs/DezignToMapping.py:280 | `list(dict.fromkeys(xs))` is duplicate-free and holds exactly the elements of `xs` |
| Seqs.DedupOrder | inputs/DezignToMapping.py:280 | de-duplication keeps the elements in the order of their first occurrence |
| StringOrder.Sort | utils/cli_selector.py:44 | `sorted` gives a sorted permutation of its input |
| StringOrder.SortedUnique | utils/cli_selector.py:84 | two sorted sequences with the same elements are equal, so the sorted selection is determined by its set |
| Text.StripSpec | utils/helpers.py:18 | `strip` removes exactly the leading and trailing whitespace runs and leaves an infix without outer whitespace |
| Text.Split | utils/cli_selector.py:77 | `split(",")` gives at least one part, no part holds a comma, and joining the parts with commas gives the input back |
| Text.Replace | utils/dez_to_bq_datatypes.py:31 | `replace` leaves text without an occurrence of the pattern unchanged, and so does replacing a pattern with itself |
| Text.ReplaceIsJoin | utils/dez_to_bq_datatypes.py:31 | `s.replace(pat, rep)` is `rep.join(s.split(pat))`: every left-to-right, non-overlapping occurrence is replaced |
| Text.SplitOnJoin | utils/dez_to_bq_datatypes.py:31 | joining the parts of `s.split(pat)` back with `pat` gives `s` |
| Text.SplitOnPartsFree | utils/dez_to_bq_datatypes.py:31 | no part of `s.split(pat)` holds an occurrence of `pat` |
| Text.SplitOnLeftmost | utils/dez_to_bq_datatypes.py:31 | the occurrences split at are the leftmost ones: no part but the last, followed by the separator, holds an occurrence starting inside it |
| Text.ReplaceKeepsPrefix | utils/dez_to_bq_datatypes.py:31 | a prefix without the pattern's first character is copied unchanged |
| Text.Find | inputs/DezignToMapping.py:125-128 | `find` gives -1 exactly when the character is absent, and otherwise its first position |
| Text.RFind | inputs/DezignToMapping.py:125-128 | `rfind` gives -1 exactly when the character is absent, and otherwise its last position |
| Defaults.DefaultsNonEmpty | utils/dez_parser.py:18-69 | every entry of the `DEFAULTS` table fills all three slots |
| Defaults.ResolveDefaults | utils/dez_parser.py:71-79 | a name containing "effective_start" in any case gets the start-of-time triple whatever the datatype, and this test wins over "effective_end"; otherwise the upper-cased datatype is looked up; an unknown type gives three empty strings; the result is either all-empty or has all three slots filled |
| Defaults.ResolveDefaultsIgnoresTypeCase | utils/dez_parser.py:73 | the datatype is looked up without regard to case |
| Defaults.ResolveDefaultsInt64 | utils/dez_parser.py:44-48 | an ordinary INT64 column gets ("-1", "-1", "-2") |
| Defaults.ResolveDefaultsUnknownType | utils/dez_parser.py:79 | a datatype outside the table gets three empty strings |
| Defaults.ResolveDefaultsEffectiveStart | utils/dez_parser.py:75-76 | an effective-start column of type INT64 still gets the start-of-time triple |
| TableOptions.TokenGroup | utils/dez_parser.py:167 | backtracking `\s*` into `([^) ,]+)`: the group starts at the last position up to the greedy stop where a character other than `)`, space and comma stands, and runs as far as such characters go; there is none exactly when no such position exists |
| TableOptions.LineGroup | utils/dez_parser.py:169 | backtracking `\s*` into `([^\n\r]+)`: the group starts at the last position up to the greedy stop that is not a line break, and runs to the end of the line; there is none exactly when every such position is a line break |
| TableOptions.SpaceThenTokenGreedy | utils/dez_parser.py:167 | `\s*([^) ,]+)` matches exactly when some whitespace prefix is followed by a token character, and the group is the run from the last such start |
| TableOptions.SpaceThenLineGreedy | utils/dez_parser.py:169 | `\s*([^\n\r]+)` matches exactly when some whitespace prefix is followed by a character that is not a line break, and the group is the line from the last such start |
| TableOptions.PartitionGreedy | utils/dez_parser.py:167 | a scan that agrees with the group after every way of matching `PARTITION BY\s+[^(]+\(` is the pattern's match: it succeeds exactly when a token can start, with the group from the last start |
| TableOptions.PartitionAt | utils/dez_parser.py:167 | the partition pattern matches at a position exactly when a case-insensitive "PARTITION BY", a whitespace character, a `(`-free run up to the first `(`, whitespace and a token character follow there, and the group is the token run from the last start the backtracking `\s*` allows |
| TableOptions.ClusterAt | utils/dez_parser.py:169 | the cluster pattern matches at a position exactly when a case-insensitive "CLUSTER BY", a whitespace character, more whitespace and a character that is not a line break follow there, and the group is the rest of the line from the last start the backtracking `\s*` allows |
| TableOptions.LeftmostSpec | utils/dez_parser.py:167-169 | `re.search` reports the leftmost start position at which the pattern matches |
| TableOptions.PartitionColumns | utils/dez_parser.py:167-168 | the partition columns are empty or one stripped token of characters other than `)`, space and comma |
| TableOptions.PartitionColumnsLeftmost | utils/dez_parser.py:167-168 | when the pattern first matches at position p, the partition columns are that match's group, stripped |
| TableOptions.PartitionColumnsEmpty | utils/dez_parser.py:165-168 | the partition columns are empty exactly when the pattern matches at no position |
| TableOptions.ClusterColumns | utils/dez_parser.py:169-171 | the cluster columns are the found clause line split at every comma, each part stripped |
| TableOptions.ClusterColumnsLeftmost | utils/dez_parser.py:169-171 | when the pattern first matches at position p, the cluster columns are that match's line split at every comma, each part stripped |
| TableOptions.ClusterColumnsEmpty | utils/dez_parser.py:169-171 | the cluster columns are empty exactly when the pattern matches at no position |
| TableOptions.ClauseAtStart | utils/dez_parser.py:167-168 | a partition clause at the very start of the options text is the one used |
| TableOptions.PartitionAtKeyword | utils/dez_parser.py:167 | the keyword matches in any letter case, as with `re.IGNORECASE` |
| TableOptions.PartitionOfClause | utils/dez_parser.py:167-168 | for `PARTITION BY f(c...` the single partition column is the token right after the first `(` |
| TableOptions.ClusterClauseAtStart | utils/dez_parser.py:169 | a cluster clause at the very start of the options text is the one found |
| TableOptions.ClusterOfClause | utils/dez_parser.py:169-171 | for `CLUSTER BY line` the cluster columns are the comma-separated parts of the line, each stripped |
| TableOptions.ClusterAcrossLineBreak | utils/dez_parser.py:169-171 | `\s+` runs across a line break, so `CLUSTER BY  \nx` gives the single column "x" |
| TableOptions.PartitionSkipsWhitespace | utils/dez_parser.py:167-168 | greedy `\s*` takes the whitespace after `(`, so `PARTITION BY f(\t x)` gives the single column "x" |
| TableOptions.PartitionBacktracksIntoTab | utils/dez_parser.py:167-168 | with no token character after the whitespace, `\s*` gives a tab back to the group, so `PARTITION BY f(\t)` gives the single column "" |
| Lineage.SourceKeySound | utils/dez_parser.py:143-146 | every property name the matcher accepts starts with digits, `_`, a source marker and a digit, and its group is those leading digits |
| Lineage.SourceKeyComplete | utils/dez_parser.py:143-146 | every name of that shape is accepted, with that prefix and kind and no other |
| Lineage.PropNameKey | utils/dez_parser.py:143-149 | `<lead>_source_<kind>_<digit>...` is grouped under its leading number, whatever follows |
| Lineage.Group | utils/dez_parser.py:144-151 | `temp` has one group per distinct matching prefix, in first-appearance order |
| Lineage.GroupValues | utils/dez_parser.py:148-151 | each group holds, per kind, the value of the last property of that prefix and kind |
| Lineage.SortByIndex | utils/dez_parser.py:156 | sorting the groups is a permutation of them |
| Lineage.SortByIndexStable | utils/dez_parser.py:156 | the sort by `int(prefix)` is ordered and stable, keeping the order of equal values |
| Lineage.SortByIndexKeys | utils/dez_parser.py:156 | the sort keeps the set of prefixes and their distinctness |
| Lineage.IndexedSourcesSpec | utils/dez_parser.py:152-157 | `sources` has one record per distinct matching prefix, ordered by prefix value, each kind being its last value or "" |
| Lineage.EntitySourcesCount | utils/dez_parser.py:139-157 | an entity has as many source records as distinct matching prefixes among its properties |
| DezParser.IdNamePairs | utils/dez_parser.py:104-108 | only entities whose ID and NAME are both non-empty contribute |
| DezParser.IdToName | utils/dez_parser.py:104-108 | `id2name` has distinct keys, and each ID maps to the NAME of the last qualifying entity with that ID |
| DezParser.IdToNameLast | utils/dez_parser.py:104-108 | a new entity overrides exactly its own ID when its ID and NAME are non-empty, and changes nothing otherwise |
| DezParser.IdToNameNonEmpty | utils/dez_parser.py:104-108 | every name found is non-empty and is found under a non-empty ID |
| DezParser.AddPairs | utils/dez_parser.py:118-121 | each pair with a FOREIGNKEYID maps that attribute to the parent, and every other attribute keeps its entry |
| DezParser.FkIndexOf | utils/dez_parser.py:111-121 | `fk_for_entity` has distinct child IDs, and each child's map has distinct attribute IDs |
| DezParser.FkIndexLastWins | utils/dez_parser.py:110-121 | the parent recorded for (child, attribute) is the parent of the last relationship that has a child, a resolving parent and a pair naming the attribute |
| DezParser.FkIndexEntries | utils/dez_parser.py:113-117 | a child has an entry exactly when some relationship with that child resolves its parent, even with no usable pair |
| DezParser.DanglingIgnored | utils/dez_parser.py:113-116 | a relationship without a child ID or with an unresolved parent changes nothing and raises nothing |
| DezParser.PkSet | utils/dez_parser.py:130-134 | the primary-key set is exactly the stripped texts of the non-empty ATTRIBUTEID elements |
| DezParser.KeyTypeDecodes | utils/dez_parser.py:183-186 | the key-role text starts with "PRIMARY" exactly for a primary key and contains "FOREIGN" exactly for a foreign key |
| DezParser.TableColumnDisjoint | utils/dez_parser.py:196-199 | no property name is both a `source_table*` and a `source_column*` name |
| DezParser.ScanPropsSpec | utils/dez_parser.py:191-203 | the property loop collects all `source_table*` and all `source_column*` texts in order, and an empty flag takes the first non-empty text of its property while a set flag is kept |
| DezParser.FieldOf | utils/dez_parser.py:173-221 | `not_null` holds exactly for NNCON/VALUE "1", the datatype is "STRING" when DTLISTNAME is absent and its text otherwise, and the defaults are those of the field's name and datatype |
| DezParser.FieldOfKeys | utils/dez_parser.py:181-188 | the four key roles hold exactly for the four PK/FK membership combinations, `sourced` is "not a foreign key", and the referenced dimension is the FK value or "" |
| DezParser.FieldOfProps | utils/dez_parser.py:192-213 | a flag is "Y" when the table options list the name exactly, and otherwise the first non-empty UDP of that name; the source table and attribute join every matching UDP with ", " |
| DezParser.EntityOf | utils/dez_parser.py:124-229 | an entity carries the ENT's name, description, grouped sources and table options, and one field per ATTR, built from the entity's own key sets and option columns |
| DezParser.Parse | utils/dez_parser.py:123-231 | one entity per ENT |
| DezParser.ParseShape | utils/dez_parser.py:123-231 | entity `i` is named after ENT `i` and has one field per ATTR, in document order |
| DezParser.ParseForeignKeys | utils/dez_parser.py:110-210 | a parsed field is not sourced exactly when some relationship names it for its entity, and then it refers to the parent of the last one |
| Helpers.HeaderTextStrips | utils/helpers.py:111 | the header text of a truthy value is its stripped rendering, and "" otherwise |
| Helpers.NormalizeMeaning | utils/helpers.py:17-18 | `normalize` maps falsy values to "" and the rest to their stripped, lower-cased text |
| Helpers.NormalizeShape | utils/helpers.py:17-18 | a normalised name has no outer whitespace and no upper-case letter |
| Helpers.NormalizeIdempotent | utils/helpers.py:17-18 | normalising a normalised name changes nothing |
| Helpers.GetHeaderRow | utils/helpers.py:20-25 | the result is the smallest row in 1..100 whose first cell normalises like the label; there is none (the source raises) exactly when no row in 1..100 matches |
| Helpers.NameForInjective | utils/helpers.py:38 | different counts give different candidate names |
| Helpers.CandidatesBound | utils/helpers.py:36-38 | the renaming loop stops, since each name it tries is already taken |
| Helpers.FreeCount | utils/helpers.py:34-38 | the loop settles on the first count whose name is free, every earlier count's name being taken |
| Helpers.ColumnMap | utils/helpers.py:27-40 | the column map's names are pairwise distinct |
| Helpers.ColumnMapNoBlankKey | utils/helpers.py:31-33 | no entry is made under the empty name |
| Helpers.ColumnMapSize | utils/helpers.py:30-39 | there is one entry per header cell with a non-blank name |
| Helpers.ColumnMapColumns | utils/helpers.py:30-39 | every entry holds the column of a header cell with a non-blank name |
| Helpers.ColumnMapStep | utils/helpers.py:31-39 | a blank cell is skipped; a named cell is entered under its plain name if free, otherwise under "name (k)" for the smallest free k |
| Helpers.GetColumnMap | utils/helpers.py:27-40 | names are distinct and every column lies within the sheet |
| Helpers.CopyMetadata | utils/helpers.py:10-15 | column B of rows 2 to 5 is copied where the source is neither None nor "", and every other target cell keeps its value |
| Helpers.Routes | utils/helpers.py:61-65 | every source column is routed only to a target column that exists under the renamed, normalised name |
| Helpers.LastRouteSpec | utils/helpers.py:61-65 | target column t receives the value of the last source column, in source-map order, whose renamed, normalised header the target has at t, and of none exactly when no source column has such a header |
| Helpers.LastRouteOf | utils/helpers.py:61-65 | along any per-column lookup, the last route to t comes from the last column whose lookup is t, and there is none exactly when no lookup is t |
| Helpers.RoutesAreOf | utils/helpers.py:61-65 | the routes are those of the per-column lookups under the mapped headers |
| Helpers.CopyRowCells | utils/helpers.py:61-68 | copying a row writes only the target row, each routed column getting its last route's source value |
| Helpers.RowsFrom | utils/helpers.py:49-59 | the copy runs over the maximal run of rows that exist and are not blank in every mapped source column |
| Helpers.CopyRowsCells | utils/helpers.py:49-72 | the copied rows get their routed columns from the matching source rows, and nothing else changes |
| Helpers.CopyTable | utils/helpers.py:42-72 | the copied-row count is the length of that maximal run, and it is 0 when the source has no named columns |
| Helpers.CopyTableCells | utils/helpers.py:42-72 | each target cell is either a routed cell of a copied row holding the source value at the same offset, or unchanged |
| Helpers.FillRangeCell | utils/helpers.py:96-102 | each header column of a range gets the base name numbered after the names already handed out, and every other cell is kept |
| Helpers.FillRangeSeen | utils/helpers.py:96-98 | the counter of the base advances by one per column, and the other counters stay |
| Helpers.Pass1Cells | utils/helpers.py:81-106 | the first pass changes no cell outside the single-row ranges on the header row, and leaves text in every cell inside one |
| Helpers.Pass1Names | utils/helpers.py:81-102 | with non-overlapping ranges, column c of range k gets its top-left text numbered one past the count already in `seen`, plus the names earlier ranges of the same text handed out, plus the columns of range k before c, as the shared `seen` counter gives |
| Helpers.HandedStep | utils/helpers.py:88-98 | filling the first range keeps a later range's top-left text and moves the names of it that the first range hands out into the counter |
| Helpers.HandedFrame | utils/helpers.py:88-90 | the names the ranges hand out depend only on the ranges' top-left cells |
| Helpers.Renames | utils/helpers.py:109-117 | the second pass gives one decision per header cell |
| Helpers.RenamesCounts | utils/helpers.py:114-115 | the second pass's counters count the occurrences of each non-empty text |
| Helpers.RenamesSpec | utils/helpers.py:108-117 | the k-th cell (k > 1) with a non-empty text t becomes "t (k)", and first occurrences and empty cells are left alone |
| Helpers.RenamedSeparates | utils/helpers.py:108-117 | two cells that had the same non-empty text hold different values afterwards |
| Helpers.ApplyRenames | utils/helpers.py:116-117 | only the renamed header cells change |
| Helpers.StillMerged | utils/helpers.py:81-87 | exactly the ranges that are not single-row ranges on the header row stay merged |
| Helpers.UnwrapMergedHeaders | utils/helpers.py:77-117 | the sheet's extent is unchanged |
| Helpers.UnwrapCells | utils/helpers.py:77-117 | rows other than the header keep every value, and a header cell ends as the second pass renames the first pass's value |
| CliSelector.DiagramPairs | utils/cli_selector.py:28-32 | only diagrams whose ID and NAME are both non-empty contribute |
| CliSelector.DiagramKnown | utils/cli_selector.py:28-32 | every diagram with a non-empty ID and NAME is a key of `diag_id2name` |
| CliSelector.PlacedIds | utils/cli_selector.py:36-40 | only known entity IDs are collected |
| CliSelector.PlacedIdsSpec | utils/cli_selector.py:35-40 | a diagram's ID set holds an entity exactly when the entity is known and some ENTC places it on the diagram |
| CliSelector.DiagramListShape | utils/cli_selector.py:43-46 | each diagram's list is sorted and has one name per distinct placed entity |
| CliSelector.DiagramListMembers | utils/cli_selector.py:36-46 | a diagram's list holds a name exactly when a known entity of that name is placed on it |
| CliSelector.ListPairsAt | utils/cli_selector.py:43-46 | each known diagram contributes its name with its sorted list |
| CliSelector.DiagramListed | utils/cli_selector.py:35-46 | every known diagram appears in `diag2names` under its name, even with an empty list |
| CliSelector.NumberingConsecutive | utils/cli_selector.py:59-69 | the j-th name of the p-th diagram is numbered right after all names of the diagrams before it |
| CliSelector.TokenIndex | utils/cli_selector.py:77-81 | a token picks a position only when, stripped, it is all digits with a value in 1..count |
| CliSelector.PickedSpec | utils/cli_selector.py:76-82 | a name is picked exactly when some token picks it |
| CliSelector.ChoiceBlank | utils/cli_selector.py:70-74 | a blank answer returns [], which means all |
| CliSelector.ChoiceOrdered | utils/cli_selector.py:76-84 | the selection is sorted and duplicate-free |
| CliSelector.ChoiceMembers | utils/cli_selector.py:70-84 | the selection holds a name exactly when the answer is not blank and one of its tokens picks the name |
| CliSelector.ChoiceAllInvalid | utils/cli_selector.py:76-84 | when no token is valid the selection is [] |
| Convert.FilterAppend | convert_dez_to_xlsx.py:34-37 | filtering distributes over concatenation, so the export keeps the parse order |
| Convert.ExportedMembers | convert_dez_to_xlsx.py:22-37 | an entity is written exactly when it was parsed and the selection is empty or holds its name |
| Convert.FilterMembers | convert_dez_to_xlsx.py:34-37 | a non-empty selection writes exactly the parsed entities whose name it holds |
| Convert.PickedIndices | convert_dez_to_xlsx.py:83-88 | every picked index is below the number of names |
| Convert.PickedIndicesSpec | convert_dez_to_xlsx.py:83-88 | an index is picked exactly when some token, stripped and all digits, names it |
| Convert.AscendingSpec | convert_dez_to_xlsx.py:89 | `sorted(picked)` is strictly increasing and holds exactly the picked indices |
| Convert.Selected | convert_dez_to_xlsx.py:89 | the selection lists the name at each picked index, in index order |
| Convert.AnswerIndices | convert_dez_to_xlsx.py:82-89 | every index of the answer names an existing entity |
| Convert.InteractiveSelectionSpec | convert_dez_to_xlsx.py:76-89 | a non-blank answer selects, by ascending position and each once, exactly the positions some token names |
| Convert.JoinBlank | convert_dez_to_xlsx.py:91 | the joined selection is empty only for no names or a single empty name |
| Convert.ReportSpec | convert_dez_to_xlsx.py:91 | "ALL" is announced for an empty selection, and any other selection except a single empty name is announced by its names |
| Convert.BlankAnswerExportsAll | convert_dez_to_xlsx.py:76-79 | with no flags a blank answer exports every entity and announces "ALL" |
| Convert.FlagsExportNamed | convert_dez_to_xlsx.py:63-64 | `--entity` values are used verbatim, so exactly the parsed entities with those names are exported |
| BqTypes.OutPath | utils/dez_to_bq_datatypes.py:31 | a path without ".dez" is returned unchanged |
| BqTypes.OutPathOfDezFile | utils/dez_to_bq_datatypes.py:31 | `stem.dez` becomes `stem_bq.dez` |
| BqTypes.OutPathSpec | utils/dez_to_bq_datatypes.py:31 | the output path is the input split at every ".dez" and joined with "_bq.dez", the split joining back to the input |
| BqTypes.OutPathRenamesDirectory | utils/dez_to_bq_datatypes.py:31 | a ".dez" in a directory name is renamed too: `dir.dez/a.dez` becomes `dir_bq.dez/a_bq.dez` |
| BqTypes.ReplaceIsRewrite | utils/dez_to_bq_datatypes.py:29 | one tag replacement rewrites each complete tag of that name and copies everything else |
| BqTypes.RewriteCompose | utils/dez_to_bq_datatypes.py:28-29 | two rewrites in a row are one rewrite with the composed map |
| BqTypes.ReplaceTagsIsRewrite | utils/dez_to_bq_datatypes.py:28-29 | the replacement loop is one simultaneous rewrite with the dict when the targets are fixed points |
| BqTypes.TypeMapWellFormed | utils/dez_to_bq_datatypes.py:3-22 | `TYPE_MAP` has distinct keys, names without '<', and targets that map to themselves if at all |
| BqTypes.TypeMapTargetSources | utils/dez_to_bq_datatypes.py:3-22 | a key that is also a BigQuery type maps to itself |
| BqTypes.ConvertIsRewrite | utils/dez_to_bq_datatypes.py:28-29 | the conversion is the one-pass rewrite with `TYPE_MAP` |
| BqTypes.ConvertTag | utils/dez_to_bq_datatypes.py:28-29 | a tag becomes the tag of its mapped name when its name is a key, and is kept otherwise |
| BqTypes.ConvertListedTag | utils/dez_to_bq_datatypes.py:3-29 | each listed type name becomes its BigQuery name |
| BqTypes.ConvertUnlistedTag | utils/dez_to_bq_datatypes.py:28-29 | a tag whose name is not a key is left alone |
| BqTypes.ConvertLowerCaseKept | utils/dez_to_bq_datatypes.py:28-29 | matching is case-sensitive, so `<DTLISTNAME>int</DTLISTNAME>` is kept |
| BqTypes.ConvertIdempotent | utils/dez_to_bq_datatypes.py:3-29 | converting converted text changes nothing |
| BqTypes.TypeMapTargetsHaveDefaults | utils/dez_to_bq_datatypes.py:3-22 | every converted type has a full default triple in the parser's table |
| Script.SlicesWithin | inputs/DezignToMapping.py:125-128 | with both underscores inside the name, the script's slice arithmetic gives prefix, middle, tail and key |
| Script.DecomposeWithUnderscore | inputs/DezignToMapping.py:125-128 | for a name with an underscore, the order is the text before the first `_`, the type the text between the first and last, the DB number the text after the last, and the key the text after the first |
| Script.DecomposeRoundTrip | inputs/DezignToMapping.py:125-128 | order and DB number hold no `_`; `order_key` gives the name back, and so does `order_type_dbnumber` when there are two underscores or more |
| Script.DecomposeWithoutUnderscore | inputs/DezignToMapping.py:125-128 | without an underscore, Python's -1 index makes the order and the type the name minus its last character, and the key and the DB number the whole name |
| Script.RegistrationsSucceed | inputs/DezignToMapping.py:122-123 | the definitions are read without error exactly when every NAME has non-empty text |
| Script.RegistrationsMembers | inputs/DezignToMapping.py:122-129 | a definition is registered, under the key and info its slices give, exactly when its name starts with a digit |
| Script.UdpTableSpec | inputs/DezignToMapping.py:129 | `dictUDP` holds each key once, with the info of the last registration under it |
| Script.DbNumbersSpec | inputs/DezignToMapping.py:130 | `dictUDPDBList` holds each registered DB number once, in order of first registration |
| Script.AllowedMembers | inputs/DezignToMapping.py:154-156 | a relationship ID is allowed exactly when a connector on the chosen diagram carries it |
| Script.IndexedSpec | inputs/DezignToMapping.py:158-166 | a relationship is indexed exactly when its ID is allowed and every element it reads exists; its key IDs are then the first KEYID and the first FOREIGNKEYID among its pairs |
| Script.FirstKeyIdSpec | inputs/DezignToMapping.py:162-164 | `find('./PAIRS/PAIR/KEYID')` finds a KEYID exactly when some pair has one, and then it is the KEYID of the first such pair |
| Script.FirstForeignKeyIdSpec | inputs/DezignToMapping.py:162-164 | `find('./PAIRS/PAIR/FOREIGNKEYID')` finds a FOREIGNKEYID exactly when some pair has one, and then it is that of the first such pair |
| Script.KeyIdsMembers | inputs/DezignToMapping.py:158-166 | an ID is a PK or FK dictionary key exactly when it is the KEYID or FOREIGNKEYID of an indexed relationship |
| Script.NotNullSpec | inputs/DezignToMapping.py:202-207 | the column is "Y" exactly when NNCON/VALUE has text "1", and "N" otherwise, including when it is missing |
| Script.DerivedIffIndexed | inputs/DezignToMapping.py:208-221 | an attribute is "Derived" exactly when its ID is a key ID of an indexed relationship, and "Sourced" otherwise |
| Script.MiniUdpLastGroup | inputs/DezignToMapping.py:224-228 | only the attribute's last USERDEFPROPS group counts, each tag taking its last value there |
| Script.AttributeLineageSpec | inputs/DezignToMapping.py:230-240 | tables list every DB number whose table resolves; columns and source entries list those whose table and column both resolve, in DB-number order |
| Script.LineageOfSpec | inputs/DezignToMapping.py:232-240 | the loop's lists are the resolved tables, and the columns and tables of the numbers where both resolve |
| Script.AttributeLineageLengths | inputs/DezignToMapping.py:232-240 | columns and source entries are equally many and no more than the tables, and every source entry is a listed table |
| Script.ScriptDefaultSpec | inputs/DezignToMapping.py:252-269 | only TIMESTAMP with the exact effective-start or effective-end name gets the start or end triple; otherwise the exact datatype is looked up, falling back to three empty strings |
| Script.ScriptAgreesWithParser | inputs/DezignToMapping.py:252-269 | for an upper-case datatype and a name that neither rule treats as effective, the script and the parser pick the same triple |
| Script.ScriptDefaultCaseSensitive | inputs/DezignToMapping.py:261-268 | the script's lookup is case-sensitive: `int64` gets the empty triple |
| Script.SourceListSpec | inputs/DezignToMapping.py:280 | the entity source list is duplicate-free, holds every table any attribute names, and keeps the order of first mention |

## Left out

- XML loading (`ET.parse`) and XPath evaluation are not modelled. The document is an
  abstract tree whose `findtext` results are given as `Option<string>`.
- General regular expressions are out of scope. The three fixed patterns
  (utils/dez_parser.py:143,167,169) are hand-written scanners.
- `strip`, `lower`, `upper`, `isdigit` and `\s` are modelled on ASCII only. Python's
  Unicode tables are out of reach.
- The `\d` of the source-property pattern (utils/dez_parser.py:143) is modelled as an
  ASCII digit. In Python it also matches other Unicode decimal digits.
- `re.IGNORECASE` (utils/dez_parser.py:167,169) is modelled as ASCII case folding.
  Python also folds non-ASCII letters, for instance the Kelvin sign to `k`.
- Cell values (the `Value` datatype of helpers.dfy) are blank, text, integer or
  boolean. Float and date-time cells are not modelled, so their `str` rendering (used
  by `normalize` and the header passes) is out of scope.
- Helpers.Pass1Names: stated for ranges that share no column, as the merged ranges of
  a sheet never do. For overlapping ranges only Pass1Cells' weaker statement is proved.
- `input()` is a string parameter. `print`, `argparse`, file reads and writes,
  `shutil.copy` and workbook saves are I/O and are not modelled.
- Cell styles (`font`, `fill`, `alignment`, `border`, `number_format`) and the unmerge
  call are not modelled. The model tracks cell values and the list of merged ranges.
- `get_header_row` raises when no row matches. The model returns `None` instead.
- utils/template_writer.py and mapping_updater.py are not part of this model. They are
  openpyxl plumbing: cell writes, style copies, row insertion, merge and save.
- tests/dez_test.py and tests/test_writer.py are not modelled. They call functions and
  keys that the parser no longer has.
- Outside the listed fragments, inputs/DezignToMapping.py is not modelled:
  - the version and diagram prompts and the version loop;
  - `dictEntities` and the per-entity workbook layout (lines 281 on);
  - the `', \n'` join of the lineage lists (lines 246-247).
- Several script steps are not modelled:
  - `find(...).text` outside a `try` on an element that is missing, which stops the
    script (RELC DIAGRAMID, RELC ID at line 156, attribute ID, attribute NAME at
    line 243, DT/DTLISTNAME);
  - the per-UDP `find('ID')` when the ID element itself is missing.

  The model takes those elements as present; only their text may be None.
- Script.KeyIds: treats a relationship's `try` block as all-or-nothing. The source can
  raise after writing `dictRelationships` and before writing the PK and FK
  dictionaries, but only through elements the model already requires for
  `Indexed` to succeed, so the two readings agree.
- Convert.ReportSpec: says nothing about a selection of one empty name (`--entity ""`).
  Joining it gives "", so the source announces "ALL" while exporting only entities
  named "".
