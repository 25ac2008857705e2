# ID3 decision tree, modelled in Dafny

This project models the core of `decisionTree.cpp`, a small C++ program that
learns an ID3 decision tree from a CSV table of strings and answers queries
against it. The model covers:

- the table (`headers`, rows of cells) and the helpers over it: column lookup
  by name (`getColumnIndex`), counting target labels into a `std::map`
  (`getMostCommonClass`), grouping row indices by a column's value into a
  `std::map` (`buildTree`, `calculateInformationGain`);
- the split criteria: `allSameClass`, `getMostCommonClass`, and
  `findBestFeature` with the information gain passed in as a function
  `Gain = (seq<nat>, string) -> real`;
- `buildTree`, as a method with loops over the groups' keys that is proved
  equal to a pure recursive function `Build`, and the facts about the trees
  it builds;
- `predict` / `predictInstance` over the resulting `TreeNode` datatype;
- the `DecisionTree` object: `train` as a method of a class that updates
  `data`, `headers`, `targetColumn` and `root` in place;
- the string handling around it: the trim idiom, the `getline`-on-`,`
  splitting used for CSV cells and for query lines, and main's
  `feature=value,...` query parser.

Files: `order.dfy` (the key order of a `std::map<std::string, _>`),
`dataset.dfy` (table, column lookup, counting and grouping loops),
`criterion.dfy` (`allSameClass`, `getMostCommonClass`, `findBestFeature`),
`tree.dfy` (the tree and `predict`), `builder.dfy` (`buildTree`),
`classifier.dfy` (the `DecisionTree` class), `query.dfy` (trim, split,
query parsing), `scenario.dfy` (a worked three-row table), `wrappers.dfy`
(the `Option` type).

Modelling choices:

- A `std::map<std::string, T>` is modelled by its ascending key sequence
  together with a Dafny `map`; keys are ordered by `StringOrder.Less`,
  byte-wise lexicographic order with a proper prefix first, which is how
  `std::string` compares (characters compared by code).
- The source's tie-breaking follows from that order. `getMostCommonClass`
  visits the counts in ascending key order and replaces the best only on a
  strictly larger count, so among equally frequent labels the
  lexicographically smallest wins, not the one seen first in the rows
  (`Scenario.MajorityTieGoesToSmallestLabel`).
  `findBestFeature` scans headers in order with a strict `>`, so among equal
  gains the earliest header wins, and a header whose gain is not above
  `-1.0` is never chosen.
- The empty string is the source's "no feature" answer; a header literally
  named `""` that wins the gain comparison therefore ends the recursion with
  a majority leaf (`Builder.InternalNodeShape` shows an internal node never
  splits on `""`).
- `TreeNode` keeps the source's `value` field (the edge label; `""` at the
  root). An absent root (a null `std::unique_ptr`) is `Option.None`.
- `loadCSV` reads a file; the model takes the file's text, with `None` for
  a file that cannot be opened. The lines getline reads are `Query.Split`
  at `'\n'`, each line's cells are `Query.ParseRow`, and the line loop with
  its `isFirstLine` flag is `Classifier.DecisionTree.LoadCSV`, proved to
  leave the table `Classifier.Loaded` describes. The source appends each new
  file's rows to the rows already held and replaces the headers, and so
  does the model.
- The trim idiom `s.erase(s.find_last_not_of(" \t") + 1)` relies on
  `npos + 1` wrapping to `0` on an all-blank string; `Query.LastNonBlank`
  returns `-1` for `npos` so that the `+ 1` gives `0` exactly as the
  unsigned arithmetic does.

## Model

| member | source | states |
|---|---|---|
| StringOrder.Insert | decisionTree.cpp:255-259 | inserting a key into a std::map's key sequence keeps it strictly ascending, adds exactly that key, and changes nothing when the key is present |
| Dataset.ColumnIndex | decisionTree.cpp:148-152 | the result is -1 exactly when the name is not a header; otherwise it is the position of the first header equal to the name |
| Dataset.Distinct | decisionTree.cpp:255-262 | the groups' keys, in the order the map visits them, are strictly ascending and are exactly the values the column takes on the rows |
| Dataset.CountPositive | decisionTree.cpp:182-185 | a value has a positive count exactly when some indexed row holds it |
| Dataset.FilterPartition | decisionTree.cpp:255-259 | the group of a value has as many entries as the value's count, holds only indexed rows with that value, and holds each such row as often as the indices do |
| Dataset.GroupsPartition | decisionTree.cpp:255-259 | every indexed row lies in the group of its own value, which is a key, and in no other group: the groups are disjoint and cover the indices |
| Dataset.FilterValues | decisionTree.cpp:255-264 | the values any column takes on a group are among those it takes on all the rows |
| Dataset.CountValues | decisionTree.cpp:179-185 | the counting loop ends with the ascending distinct values as keys and, for each, the number of indexed rows holding it |
| Dataset.GroupBy | decisionTree.cpp:255-259 | the grouping loop ends with the ascending distinct values as keys and, for each, the indexed rows holding it in their original order |
| Criterion.AllSameClass | decisionTree.cpp:202-219 | true exactly when all indexed rows carry one label, and so true for no rows |
| Criterion.ModeScanIsSmallestMode | decisionTree.cpp:187-196 | the scan over ascending keys ends on a key of maximal count, the smallest such key, or on ("", 0) with no keys |
| Criterion.MajorityIsSmallestMode | decisionTree.cpp:177-199 | getMostCommonClass returns "" for no rows, otherwise a label of the rows whose count is maximal and which is lexicographically smallest among the labels of that count |
| Criterion.MostCommonClass | decisionTree.cpp:177-199 | the counting and max-tracking loops return the majority label of the specification |
| Criterion.GainScanIsFirstArgmax | decisionTree.cpp:157-171 | the scan's best gain bounds every candidate's gain; its feature is "" or a candidate header with that gain and no earlier candidate reaching it; with all gains above -1 it is a candidate |
| Criterion.BestFeatureSpec | decisionTree.cpp:155-174 | findBestFeature returns "" or a header that is neither the target nor used; a returned header has maximal gain; when all candidate gains exceed -1.0 and a candidate exists the result is a candidate header, non-empty unless that header is itself named "" |
| Criterion.FindBestFeature | decisionTree.cpp:155-174 | the loop over the headers returns the specification's best feature |
| Tree.ChildFor | decisionTree.cpp:325-331 | the position found is that of the first child carrying the value, or the number of children when none does |
| Tree.Predict | decisionTree.cpp:307-334 | a leaf answers its prediction; an internal node answers Unknown when the query lacks its feature or no child carries the query's value; any other answer comes from a child carrying that value |
| Tree.PredictInstance | decisionTree.cpp:385-388 | a tree never built answers Unknown |
| Tree.PredictAnswersFromLeaves | decisionTree.cpp:307-334 | every answer is a leaf's prediction or Unknown |
| Tree.PredictReadsOnlySplitFeatures | decisionTree.cpp:317-331 | two queries agreeing on the features the tree splits on get the same answer |
| Tree.ChildForUnique | decisionTree.cpp:325-331 | with ascending edge values the child followed is the only one carrying the query's value |
| Builder.RemainingShrinks | decisionTree.cpp:250-251 | adding the chosen feature to the used set strictly shrinks the set of headers still open to a split, so the recursion ends |
| Builder.BuildTree | decisionTree.cpp:222-270 | the method, with its grouping loop and loop over the map's keys, builds exactly the tree `Build` specifies |
| Builder.BranchesAt | decisionTree.cpp:261-267 | there is one child per key, and the i-th child is the tree built for the i-th key |
| Builder.InternalNodeShape | decisionTree.cpp:241-267 | an internal node splits on findBestFeature's non-empty, unused, non-target choice and has one child per distinct value of it, in ascending order, each built from that value's non-empty group and labelled with the value |
| Builder.BuildFreshPaths | decisionTree.cpp:250-264 | on no root-to-leaf path is a feature split on twice, and never the target or a feature used above the node |
| Builder.BuildLeavesFromData | decisionTree.cpp:227-248 | no rows give the Unknown leaf; otherwise every leaf label is a target value of the rows |
| Builder.BuildOrderedChildren | decisionTree.cpp:255-267 | at every internal node the children's values strictly ascend |
| Builder.PredictTrainingRow | decisionTree.cpp:255-267 | a row the tree was built from, queried with its own cells, reaches a leaf whose label occurs among the rows: it never falls off the tree |
| Builder.FollowsGroup | decisionTree.cpp:317-331 | at an internal node a training row is sent to the tree built from its own value's group |
| Classifier.DecisionTree.LoadCSV | decisionTree.cpp:51-89 | loading fails exactly when the file cannot be opened, and then leaves the table as it was; otherwise each line read becomes a row of trimmed cells, the first replacing the headers and the others appended to the rows already held; the target and the root are untouched |
| Classifier.AllIndices | decisionTree.cpp:358-363 | the indices are 0 to n-1 in order |
| Classifier.DecisionTree.constructor | decisionTree.cpp:45-49 | a new object holds no data, no headers, no target and no tree |
| Classifier.DecisionTree.Train | decisionTree.cpp:337-369 | train records the target, loads the file into the table, and succeeds exactly when the file opens, the table has rows and the target is a header; on success the root is the tree built from all rows with no feature used, otherwise the root is unchanged |
| Classifier.DecisionTree.PredictInstance | decisionTree.cpp:385-388 | an untrained object answers Unknown |
| Classifier.TrainPureTable | decisionTree.cpp:234-238 | a table whose rows all carry one label trains into a single leaf answering that label to every query |
| Classifier.TrainedTreeAnswersTrainingRows | decisionTree.cpp:358-366 | after training, each row of the table queried with its own cells gets a label occurring in the table |
| Query.FirstNonBlank | decisionTree.cpp:73 | the position of the first character that is not a space or tab, or the length when there is none |
| Query.LastNonBlank | decisionTree.cpp:74 | the position of the last character that is not a space or tab, or -1 when there is none |
| Query.Trim | decisionTree.cpp:73-74 | the trimmed string is no longer than the input and neither starts nor ends with a space or tab |
| Query.TrimSpec | decisionTree.cpp:73-74 | the trimmed string is the stretch of the input from its first non-blank, with only blanks outside that stretch |
| Query.TrimIdempotent | decisionTree.cpp:73-74 | trimming a trimmed string changes nothing |
| Query.TrimEmpty | decisionTree.cpp:73-74 | a string trims to empty exactly when it consists of spaces and tabs |
| Query.FindChar | decisionTree.cpp:446 | the position of the first occurrence of the character, or the length for npos |
| Query.Split | decisionTree.cpp:444 | repeated getline at a delimiter yields pieces without the delimiter, and none for an empty line |
| Query.JoinSplit | decisionTree.cpp:444 | joining the pieces with the delimiter gives the line back, except a final delimiter, which getline drops |
| Query.ParseRow | decisionTree.cpp:67-76 | a CSV line gives one cell per piece, none holding a comma or starting or ending with a blank |
| Query.ParsePair | decisionTree.cpp:446-458 | a piece without '=' is skipped; otherwise the feature is cut at the first '=' and so holds none |
| Query.ParsePairOf | decisionTree.cpp:446-458 | `f=v` with no '=' in f parses to the trimmed f and the trimmed v, whatever v holds |
| Query.CollectFeatures | decisionTree.cpp:444-460 | a feature is in the parsed instance exactly when some piece assigns it |
| Query.CollectLastWins | decisionTree.cpp:458 | a feature's value is the one from the last piece assigning it |
| Query.ParseInstance | decisionTree.cpp:440-460 | the parsing loop over the query line's pieces builds the instance the specification describes |
| Scenario.WeatherTree | decisionTree.cpp:222-270 | on a three-row Weather/Play table, with Weather's gain above -1, the tree splits on Weather with the children Rainy -> No and Sunny -> Yes |
| Scenario.WeatherPredictions | decisionTree.cpp:307-334 | that tree answers Yes for Sunny, No for Rainy, and Unknown for an unseen value or a missing feature |
| Scenario.WeatherWithoutGain | decisionTree.cpp:241-248 | with Weather's gain at or below -1 no feature is found and the root is the majority leaf Yes |
| Scenario.MajorityTieGoesToSmallestLabel | decisionTree.cpp:187-196 | with one Yes row followed by one No row the majority is No, the smaller label, although Yes was seen first |

## Left out

- File input in `loadCSV` (opening the file and reading its bytes): the model takes the file's text, or `None` when the file cannot be opened; the line and cell loops over that text are modelled.
- Classifier.DecisionTree.Train: requires every row of the loaded table to have one cell per header; the source does not check this (a short or blank line would make `data[idx][col]` read out of bounds), so ragged tables are outside the model.
- `calculateEntropy` and `calculateInformationGain`: `double` arithmetic with `log2`; the gain is a parameter of the model, so every property holds for any gain function. The label counts and groups they consume are modelled by `Dataset.CountValues` and `Dataset.GroupBy`.
- `printTree`, `printDecisionTree`, `printDataInfo`: console output only.
- `main`'s prompts, its `std::cin` loop, the `quit` command and the "Invalid input format" message for an empty instance: interactive I/O; only the parse of one query line is modelled.
- The error messages `train` writes to `std::cerr`: output only; the model returns the same `false`.
- Memory ownership (`std::unique_ptr` children, moving nodes into place): the tree is a value.
- Integer widths: the source's `int` counters, `int` loop indices over `data.size()` and the `std::distance` result narrowed to `int` in `getColumnIndex` are unbounded `nat`/`int` in the model; nothing in the core depends on overflow, which would need more than 2^31 rows or headers.
- Text encoding: strings are sequences of characters compared by code, which matches `std::string`'s byte-wise unsigned comparison for single-byte text; multi-byte encodings are not modelled.
