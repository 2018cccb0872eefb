# dissim in Dafny

A model of dissim, a toolkit that measures how similar two diseases are through the MeSH
descriptors (Medical Subject Headings) they are annotated with, and that builds and filters
the benchmark tables used to evaluate those measures. One Dafny module per source file:

- `Thesaurus`: the MeSH ontology graph. Nodes hold parent and child sets, MeSH tree
  positions, and the trees and categories derived from them. Ancestors and descendants are
  breadth-first walks over a visited set. The graph may have cycles, since the generic root
  is its own parent.
- `Annotations`: the annotation index. Each object (a disease) is annotated to descriptors and
  propagated along the true path to every ancestor. A reverse index maps each descriptor back
  to its objects; it can be restricted to a set of valid descriptors.
- `Measures`: SimUI and SimGIC, Resnik's most informative common ancestor, Lin, Schlicker and
  Jiang, and the MAX/AVG/MED/ALFONSO selection strategies.
- `SemanticSimilarities`: the `SemanticSimilarity` object. It holds index maps over objects and
  descriptors and fills the symmetric similarity matrices (descriptor by descriptor, object by
  object, and term-wise through a selection strategy).
- `IsmMeasure`: the ISM measure. The transition matrix P, the leaf spread A, the random-walk
  contribution RWC and its combination with a given matrix.
- `MeshParser`: the MeSH ASCII descriptor file read into a `MeSHThesaurus`, with category
  roots, a generic root and parent links.
- `WriteFiles`: the triplet and selected-descriptor writers.
- The pipelines:
  - `MeshFormatter` (`*NEWRECORD` state machine), `ExtractUniquePubmed` and `ExtractOmimList`;
  - `Mim2Mesh` (OMIM to MeSH through PubMed);
  - `SimpleSimilarities` (Jaccard, Dice, overlap, number in common);
  - `Mim2Gene` (protein and interaction benchmark), `PfamBenchmark` (shared Pfam family),
    `BuildBenchmarks` (intersection tables) and `FilterBenchmarks`.
- Shared modules: `Wrappers` (Result, Option and the Python exception kinds), `Strings`
  (Python's `split`, `strip`, `upper` and `int` on `seq<char>`), `Tables` (folds that read a
  file line by line into sets, dicts and lists) and `Combinations` (sorting and
  `itertools.combinations`).

Imperative code becomes methods with loops, or classes whose methods update their fields.
Each one is proved equal to a specification function, and lemmas state what the source
promises about those functions. Python exceptions become `Err` results of the same kind.
Files are sequences of lines without their terminators. Output files are sequences of
records. Attribute and dict iteration orders that Python leaves to hashing are parameters,
except for the two set orders that "## Left out" names.

In `buildBenchmarks.py` the doc comment (lines 79-81) puts the first file's similarity in
column 3 and the second file's in column 4. The code (lines 92-94) writes them the other way
round. The model follows the code: `BuildBenchmarks.Record` holds `disim` (from `file2`) and
then `truth` (from `file1`).

## Model

| member | source | states |
|---|---|---|
| Thesaurus.Closure | ComputeSimilarities/thesaurus.py:63-81 | the breadth-first walk with a visited set returns exactly the nodes reachable from the start, the start included, and the result is closed under the edges (cycles and repeated nodes are taken once) |
| Thesaurus.Explore | ComputeSimilarities/thesaurus.py:63-81 | the queue loop visits the start, never leaves a set that holds the start and is closed under the edges, and ends with a visited set closed under the edges |
| Thesaurus.Enumerate | ComputeSimilarities/thesaurus.py:115 | iterating over a set visits each element exactly once |
| Thesaurus.ParentEdges | ComputeSimilarities/thesaurus.py:57-58 | the edge table lists, for every node, its parent set |
| Thesaurus.ChildEdges | ComputeSimilarities/thesaurus.py:60-61 | the edge table lists, for every node, its child set |
| Thesaurus.GetAncestors | ComputeSimilarities/thesaurus.py:63-71 | the ancestors of a node are the node itself and everything reachable through parents; the set is closed under parents |
| Thesaurus.GetDescendants | ComputeSimilarities/thesaurus.py:73-81 | the descendants of a node are the node itself and everything reachable through children; the set is closed under children |
| Thesaurus.TreesOf | ComputeSimilarities/thesaurus.py:112-117 | when every position has a non-empty first segment, every tree is non-empty |
| Thesaurus.TreesOfMembers | ComputeSimilarities/thesaurus.py:115-117 | a string is a tree of the node exactly when it is the first dotted segment of one of its positions |
| Thesaurus.CategoriesOfAdd | ComputeSimilarities/thesaurus.py:118-119 | adding a tree adds exactly its first character to the categories |
| Thesaurus.ExtractTreesAndCategories | ComputeSimilarities/thesaurus.py:112-119 | succeeds exactly when no position has an empty first segment (else IndexError); then the trees are the first segments and the categories their first characters |
| Thesaurus.TreesOfAtMostPositions | ComputeSimilarities/thesaurus.py:115-117 | a node has no more trees than positions |
| Thesaurus.CategoriesOfAtMostTrees | ComputeSimilarities/thesaurus.py:118-119 | a node has no more categories than trees |
| Thesaurus.CategoriesAtMostTreesAtMostPositions | ComputeSimilarities/thesaurus.py:133-139 | the number of categories is at most the number of trees, which is at most the number of positions |
| Thesaurus.RegisteredMembers | ComputeSimilarities/thesaurus.py:219-222 | after registering a node under its positions, each of them maps to the node and every other position keeps its owner |
| Thesaurus.RegisteredOne | ComputeSimilarities/thesaurus.py:222 | registering one position is one dictionary assignment |
| Thesaurus.MeSHThesaurus.constructor | ComputeSimilarities/thesaurus.py:183-190 | a new thesaurus has no nodes and all its tables empty |
| Thesaurus.MeSHThesaurus.NewNode | ComputeSimilarities/thesaurus.py:98-102 | creating a node appends one object with the given name, identifier and positions, no synonyms, parents or children, not dummy; IndexError (and no node) when a position has an empty first segment |
| Thesaurus.MeSHThesaurus.SetDummy | ComputeSimilarities/thesaurus.py:121-122 | only the dummy flag of that node changes |
| Thesaurus.MeSHThesaurus.SetSynonyms | ComputeSimilarities/thesaurus.py:45-46 | only the synonyms of that node change |
| Thesaurus.MeSHThesaurus.AddParent | ComputeSimilarities/thesaurus.py:83-84 | the parent is added to that node's parent set and nothing else changes |
| Thesaurus.MeSHThesaurus.AddChild | ComputeSimilarities/thesaurus.py:86-87 | the child is added to that node's child set and nothing else changes |
| Thesaurus.MeSHThesaurus.AddNode | ComputeSimilarities/thesaurus.py:149-150 | the node is the one registered under its identifier (a repeated identifier is overwritten) and under each of its positions (also lines 219-222) |
| Thesaurus.MeSHThesaurus.GetNode | ComputeSimilarities/thesaurus.py:152-153 | the node registered under the identifier; KeyError exactly when there is none |
| Thesaurus.MeSHThesaurus.GetNodeByPosition | ComputeSimilarities/thesaurus.py:216-217 | the node registered under the position; KeyError exactly when there is none |
| Thesaurus.MeSHThesaurus.AddCategory | ComputeSimilarities/thesaurus.py:192-193 | the category name is recorded under its id |
| Thesaurus.MeSHThesaurus.AddTree | ComputeSimilarities/thesaurus.py:210-214 | the tree name is recorded; the tree is filed under the first character of its first segment, or, when that segment is empty, IndexError with only the name recorded |
| Thesaurus.MeSHThesaurus.GetNodesByCategory | ComputeSimilarities/thesaurus.py:198-199 | the nodes filed under the category, or the empty set, which the lookup then inserts |
| Thesaurus.MeSHThesaurus.CommonAncestors | ComputeSimilarities/thesaurus.py:170-175 | the intersection of both nodes' ancestor sets; KeyError exactly when either identifier is unknown |
| Thesaurus.CommonAncestorsSymmetric | ComputeSimilarities/thesaurus.py:170-175 | common ancestors do not depend on argument order, and a node's common ancestors with itself are its ancestors, itself included |
| Annotations.Filter | ComputeSimilarities/annotation.py:55-61 | an identifier is kept exactly when it passes the filter (no filter set, or in the valid set) |
| Annotations.AddToEach | ComputeSimilarities/annotation.py:62 | the object is added to the set of every kept descriptor, missing entries are created, other entries are untouched |
| Annotations.Extend | ComputeSimilarities/annotation.py:63 | the kept descriptors are added to the object's set; no entry appears when nothing is kept |
| Annotations.Ids | ComputeSimilarities/annotation.py:58-59 | every ancestor node's identifier is among the identifiers |
| Annotations.TruePath | ComputeSimilarities/annotation.py:53-63 | a filtered-out descriptor changes nothing; otherwise the descriptor becomes a direct annotation, and the object's descriptors (and, mirrored, the ancestors' objects) grow by exactly the ancestors that pass the filter, in both directions: every passing ancestor is added and nothing else is (the true path rule) |
| Annotations.AnnotateSpec | ComputeSimilarities/annotation.py:53-63 | `annotate` on the annotation state; `Annotations.TruePath` states what it adds and that a filtered-out descriptor changes nothing |
| Annotations.AnnotateConsistent | ComputeSimilarities/annotation.py:62-63 | annotating keeps the object-to-descriptor and descriptor-to-object maps mirror images of each other |
| Annotations.AnnotateIdempotent | ComputeSimilarities/annotation.py:53-63 | annotating the same object, descriptor and node twice changes nothing the second time |
| Annotations.Annotation.constructor | ComputeSimilarities/annotation.py:40-44 | a new annotation has empty maps and no filter, and is consistent |
| Annotations.Annotation.SetValidDescriptors | ComputeSimilarities/annotation.py:46-51 | only the filter changes |
| Annotations.Annotation.Annotate | ComputeSimilarities/annotation.py:53-63 | the new state is the annotation transition applied with the identifiers of the node's ancestors |
| Annotations.Annotation.Propagate | ComputeSimilarities/annotation.py:58-63 | the loop files the object under each ancestor identifier that passes the filter, and those identifiers under the object |
| Annotations.Annotation.GetDirectAnnotations | ComputeSimilarities/annotation.py:65-66 | the object's direct annotations, or the empty set, which the lookup inserts |
| Annotations.Annotation.GetDescriptorsPerObject | ComputeSimilarities/annotation.py:71-72 | the object's descriptors, or the empty set, which the lookup inserts |
| Annotations.Annotation.GetObjectsPerDescriptor | ComputeSimilarities/annotation.py:80-84 | the descriptor's objects, or the empty set, which the lookup inserts |
| Annotations.Annotation.NumAnnotPerDescriptor | ComputeSimilarities/annotation.py:77-78 | the number of objects annotated to the descriptor; 0 for an unseen one, which the lookup then inserts |
| Annotations.Rows | ComputeSimilarities/annotation.py:106-107 | one whitespace-split field list per line |
| Annotations.ReadRowsFails | ComputeSimilarities/annotation.py:107-108 | reading fails, with IndexError, exactly when some line has no field |
| Annotations.ReadRowsErrExtends | ComputeSimilarities/annotation.py:106-108 | once a prefix of the file fails, the whole read fails |
| Annotations.ReadRowsKeys | ComputeSimilarities/annotation.py:108 | the objects read are exactly the first fields of the lines |
| Annotations.ReadRowsLastWins | ComputeSimilarities/annotation.py:108 | each object maps to the remaining fields of the last line that names it |
| Annotations.ReadAnnotations | ComputeSimilarities/annotation.py:104-108 | the loop computes the read of all lines |
| Annotations.BuiltStep | ComputeSimilarities/annotation.py:123-127 | annotating one more pair moves from the state of a set of pairs to the state of that set plus the pair, so the result does not depend on the order of iteration over dicts and sets |
| Annotations.BuiltConsistent | ComputeSimilarities/annotation.py:111-128 | the state any set of pairs builds keeps the two maps mirror images |
| Annotations.BuiltObjectsGet | ComputeSimilarities/annotation.py:63 | an object's descriptors in the built state are the propagated descriptors of its pairs |
| Annotations.BuiltEmpty | ComputeSimilarities/annotation.py:112 | no pairs build the empty annotation |
| Annotations.Built | ComputeSimilarities/annotation.py:111-128 | the annotation a set of (object, descriptor) pairs builds; `Annotations.BuiltStep` shows it is what annotating the pairs one by one gives, in any order |
| Annotations.PairsForAdd | ComputeSimilarities/annotation.py:123-125 | the pairs of one more object are its listed descriptors that are selected |
| Annotations.PairsOfAdd | ComputeSimilarities/annotation.py:125 | one more descriptor adds exactly one pair |
| Annotations.SelectDescriptors | ComputeSimilarities/annotation.py:113-120 | the selected descriptors are the union of the chosen categories' nodes (each lookup inserting an empty entry) or, with no category chosen, every registered identifier |
| Annotations.AnnotateObject | ComputeSimilarities/annotation.py:124-127 | annotates the object with every descriptor; fails exactly when one has no node; else the state is that of the pairs done plus these |
| Annotations.AnnotateAll | ComputeSimilarities/annotation.py:123-127 | succeeds exactly when every selected listed descriptor has a node; then the state is the one built from all selected pairs |
| Annotations.GetAnnotations | ComputeSimilarities/annotation.py:111-128 | KeyError exactly when a selected descriptor has no node; otherwise a fresh, consistent annotation equal to the state built from every object's selected descriptors, with the filter set only when categories were chosen |
| Measures.SimUI | ComputeSimilarities/similarity_measures.py:33-37 | the Jaccard index of the two descriptor sets: ZeroDivisionError exactly when both are empty, otherwise a value in [0, 1] that is 1 exactly when the sets are equal |
| Measures.JaccardCards | ComputeSimilarities/similarity_measures.py:36 | the intersection is never larger than the union, and strictly smaller when the sets differ |
| Measures.SimUIOf | ComputeSimilarities/similarity_measures.py:33-37 | the measure over an annotation reads the two objects' propagated descriptor sets and stays in [0, 1] |
| Measures.SimUISymmetric | ComputeSimilarities/similarity_measures.py:33-37 | SimUI does not depend on the order of its arguments |
| Measures.SumCountsRemove | ComputeSimilarities/similarity_measures.py:54-55 | the summed annotation count of a set is one member's count plus that of the rest, whatever member is taken first |
| Measures.SumCountsMono | ComputeSimilarities/similarity_measures.py:54-55 | a subset never has a larger summed count |
| Measures.WeightedRatio | ComputeSimilarities/similarity_measures.py:56 | ZeroDivisionError exactly when the union count is 0; otherwise the value times the union count is the intersection count, in [0, 1], and 1 exactly when the counts agree |
| Measures.SimGIC | ComputeSimilarities/similarity_measures.py:51-57 | ZeroDivisionError exactly when the union carries no annotation; otherwise a value in [0, 1] that times the union's summed count is the intersection's |
| Measures.SumCountsOf | ComputeSimilarities/similarity_measures.py:54-55 | the loop over a set's elements computes the summed count |
| Measures.SimGICValue | ComputeSimilarities/similarity_measures.py:51-57 | computes SimGIC |
| Measures.SimGICSymmetric | ComputeSimilarities/similarity_measures.py:51-57 | SimGIC does not depend on the order of its arguments |
| Measures.ArgMinFirst | ComputeSimilarities/similarity_measures.py:76-78 | the index of the first occurrence of the minimum, as `list.index(min(..))` picks |
| Measures.Counts | ComputeSimilarities/similarity_measures.py:75 | one annotation count per common ancestor, in order |
| Measures.Resnik | ComputeSimilarities/similarity_measures.py:72-79 | ValueError with no common ancestor, ZeroDivisionError with no objects; otherwise the first ancestor with the fewest annotations and minus the base-10 log of its share of the objects |
| Measures.LinValue | ComputeSimilarities/similarity_measures.py:143-146 | 0 when the log-probabilities sum to 0; otherwise the value times that sum is -2 times the information content |
| Measures.LinMeaning | ComputeSimilarities/similarity_measures.py:139-147 | ZeroDivisionError with no objects (even with no common ancestor), ValueError with no common ancestor; otherwise Resnik's ancestor and Lin's ratio |
| Measures.Lin | ComputeSimilarities/similarity_measures.py:139-147 | `Lin.semantic_similarity`; its errors, ancestor and value are stated by `Measures.LinMeaning` |
| Measures.LinSymmetric | ComputeSimilarities/similarity_measures.py:139-147 | Lin does not depend on the order of the two descriptors |
| Measures.SchlickerIsDampedLin | ComputeSimilarities/similarity_measures.py:110-119 | fails exactly as Lin fails; otherwise Lin's ancestor and Lin's value times 1 - exp(-ic) |
| Measures.Schlicker | ComputeSimilarities/similarity_measures.py:110-119 | `Schlicker.semantic_similarity`; `Measures.SchlickerIsDampedLin` states that it is Lin's value damped by 1 - exp(-ic), failing as Lin fails |
| Measures.SchlickerSymmetric | ComputeSimilarities/similarity_measures.py:110-119 | Schlicker does not depend on the order of the two descriptors |
| Measures.Jiang | ComputeSimilarities/similarity_measures.py:164-169 | fails exactly as Lin fails; otherwise Resnik's ancestor and a value that plus both log-probabilities is -2 ic |
| Measures.JiangSymmetric | ComputeSimilarities/similarity_measures.py:164-169 | Jiang does not depend on the order of the two descriptors |
| Measures.Flatten | ComputeSimilarities/similarity_measures.py:89-93 | every entry of the matrix is among the flattened values |
| Measures.FlattenMembers | ComputeSimilarities/similarity_measures.py:89-93 | every flattened value is an entry of the matrix |
| Measures.FlattenLength | ComputeSimilarities/similarity_measures.py:89-93 | an r-by-c matrix flattens to r*c values |
| Measures.MaxOf | ComputeSimilarities/similarity_measures.py:89 | `amax`: a member that no value exceeds |
| Measures.MinOf | ComputeSimilarities/similarity_measures.py:92-93 | a member that no value undercuts |
| Measures.SumBounds | ComputeSimilarities/similarity_measures.py:91 | the sum of values within [lo, hi] lies within n*lo and n*hi |
| Measures.Mean | ComputeSimilarities/similarity_measures.py:91 | `mean`: the value times the count is the sum |
| Measures.MeanBounds | ComputeSimilarities/similarity_measures.py:91 | the mean of values within [lo, hi] is within [lo, hi] |
| Measures.MeanBetween | ComputeSimilarities/similarity_measures.py:91 | the mean lies between the minimum and the maximum |
| Measures.Insert | ComputeSimilarities/similarity_measures.py:93 | insertion adds one element |
| Measures.InsertPerm | ComputeSimilarities/similarity_measures.py:93 | insertion adds exactly the new element |
| Measures.InsertSorted | ComputeSimilarities/similarity_measures.py:93 | insertion into a sorted sequence keeps it sorted |
| Measures.Sort | ComputeSimilarities/similarity_measures.py:93 | a sorted permutation of the values |
| Measures.Median | ComputeSimilarities/similarity_measures.py:93 | `median` (the middle value, or the mean of the two middle values) lies between the minimum and the maximum |
| Measures.MedianInRange | ComputeSimilarities/similarity_measures.py:93 | every value of a permutation lies between the minimum and maximum of the original |
| Measures.RowMax | ComputeSimilarities/similarity_measures.py:95 | `amax(values, 1)`: the maximum of each row |
| Measures.Column | ComputeSimilarities/similarity_measures.py:96 | the j-th column of the matrix |
| Measures.ColMax | ComputeSimilarities/similarity_measures.py:96 | `amax(values, 0)`: the maximum of each column |
| Measures.SelectionStrategyMeaning | ComputeSimilarities/similarity_measures.py:87-98 | the name is compared upper-cased; an unknown name is an unbound-local error and nothing else is; MAX is the largest entry, AVG the mean, MED lies between minimum and maximum, ALFONSO the mean of the row and column maxima; each fails on an empty matrix |
| Measures.SelectionStrategy | ComputeSimilarities/similarity_measures.py:87-98 | `selectionStrategy`; what each strategy name selects and when it fails is stated by `Measures.SelectionStrategyMeaning` |
| Measures.AlfonsoAtMostMax | ComputeSimilarities/similarity_measures.py:94-97 | the ALFONSO score never exceeds the MAX score of the same matrix |
| SemanticSimilarities.InOrder | ComputeSimilarities/semsim.py:81 | the members of a set of node handles within a range, each once, ascending |
| SemanticSimilarities.Indexes | ComputeSimilarities/semsim.py:44-49 | the index table has exactly the listed names as keys, each mapped to a position holding it, the last such position |
| SemanticSimilarities.IndexesBijection | ComputeSimilarities/semsim.py:44-49 | over distinct names the index table maps each position's name back to that position and no two names share an index |
| SemanticSimilarities.Contents | ComputeSimilarities/semsim.py:109 | the matrix value of a two-dimensional array, entry by entry |
| SemanticSimilarities.Submatrix | ComputeSimilarities/semsim.py:109-111 | fancy indexing: IndexError exactly when a chosen row or column is out of range, otherwise the entries at the chosen rows and columns |
| SemanticSimilarities.TermwiseCell | ComputeSimilarities/semsim.py:109-117 | IndexError for an out-of-range index, an unbound-local error for an unknown strategy, ValueError for an object without annotations, otherwise the selection strategy applied to the submatrix |
| SemanticSimilarities.SymFilledSymmetric | ComputeSimilarities/semsim.py:98-133 | a matrix filled through its upper triangle and mirrored is symmetric |
| SemanticSimilarities.TriangleCellsTotal | ComputeSimilarities/semsim.py:126-135 | the first i rows of the upper triangle hold i(2n-i+1)/2 cells |
| SemanticSimilarities.AppendRow | ComputeSimilarities/semsim.py:135 | appending entries to a defaultdict(list): no entry leaves it unchanged, otherwise the key holds its old list followed by the entries and no other key changes |
| SemanticSimilarities.WriteRow | ComputeSimilarities/semsim.py:98-119 | row i from column i on and column i from row i on get the values; every other cell is unchanged |
| SemanticSimilarities.FillRow | ComputeSimilarities/semsim.py:96-119 | succeeds exactly when every cell of row i from i on has a value; otherwise the first failure in visiting order is reported; the row and its mirror hold the values, others are unchanged |
| SemanticSimilarities.FillSymmetric | ComputeSimilarities/semsim.py:93-119 | succeeds exactly when every upper-triangle cell has a value, in which case the matrix is that symmetric fill; otherwise the first failure in visiting order is reported |
| SemanticSimilarities.SemanticSimilarity.constructor | ComputeSimilarities/semsim.py:34-49 | the object keeps the annotation, thesaurus, and the objects and descriptors in their iteration order; no matrix computed yet and an empty ancestor log |
| SemanticSimilarities.SemanticSimilarity.CommonSpec | ComputeSimilarities/semsim.py:80-81 | common ancestors are handles of the thesaurus |
| SemanticSimilarities.SemanticSimilarity.CommonAncestors | ComputeSimilarities/semsim.py:80-81 | KeyError exactly when an identifier is unknown; otherwise each common ancestor whose identifier is one of the descriptors, each once, listed in ascending node order where the source lists them in the set's iteration order |
| SemanticSimilarities.SemanticSimilarity.CommonSpecSymmetric | ComputeSimilarities/semsim.py:80-81 | common ancestors do not depend on the order of the two identifiers |
| SemanticSimilarities.SemanticSimilarity.TermSpecSymmetric | ComputeSimilarities/similarity_measures.py:72-79 | every measure of the Resnik family, errors included, is symmetric in its two descriptors (also lines 110-119, 139-147, 164-169) |
| SemanticSimilarities.SemanticSimilarity.DescriptorSimilarity | ComputeSimilarities/similarity_measures.py:72-79 | computes the chosen measure; Lin, Schlicker and Jiang raise ZeroDivisionError with no objects before any KeyError (also lines 110-119, 139-147, 164-169) |
| SemanticSimilarities.SemanticSimilarity.ObjectSimilarity | ComputeSimilarities/similarity_measures.py:33-57 | computes SimUI or SimGIC between two objects |
| SemanticSimilarities.SemanticSimilarity.IdsFor | ComputeSimilarities/semsim.py:87 | the descriptor positions of an object's direct annotations, each once |
| SemanticSimilarities.SemanticSimilarity.IdsMap | ComputeSimilarities/semsim.py:85-89 | one entry per object index, holding its descriptor positions |
| SemanticSimilarities.SemanticSimilarity.DescriptorsIdsPerObject | ComputeSimilarities/semsim.py:83-89 | KeyError exactly when some direct annotation is not one of the descriptors; otherwise the table of descriptor positions per object |
| SemanticSimilarities.SemanticSimilarity.TermCellsAgree | ComputeSimilarities/semsim.py:130 | the cell function used by the fill is the measure between the i-th and j-th descriptors |
| SemanticSimilarities.SemanticSimilarity.TermCell | ComputeSimilarities/semsim.py:130 | computes one cell of the descriptor matrix |
| SemanticSimilarities.SemanticSimilarity.LcaRow | ComputeSimilarities/semsim.py:128-135 | the ancestor-log entries of row i, one per column from i on, in order |
| SemanticSimilarities.SemanticSimilarity.LcaAfterRows | ComputeSimilarities/semsim.py:126-135 | after i rows, each of the first i descriptors has its row's entries appended to its log and every other key is untouched |
| SemanticSimilarities.SemanticSimilarity.AppendedTotal | ComputeSimilarities/semsim.py:126-135 | a full run appends n(n+1)/2 entries to the ancestor log |
| SemanticSimilarities.SemanticSimilarity.AppendedAll | ComputeSimilarities/semsim.py:126-135 | the entries appended after i rows are the upper-triangle cells of those rows |
| SemanticSimilarities.SemanticSimilarity.TermRowValues | ComputeSimilarities/semsim.py:128-130 | the similarities of descriptor i with descriptors i.., up to the first that fails, and that failure |
| SemanticSimilarities.SemanticSimilarity.PerDescriptorRow | ComputeSimilarities/semsim.py:127-135 | one outer iteration: fills row i and its mirror and appends its log entries, or stops at the first failing cell |
| SemanticSimilarities.SemanticSimilarity.FillDescriptors | ComputeSimilarities/semsim.py:124-135 | succeeds exactly when every upper-triangle cell has a value; the matrix is the symmetric fill and the log holds every row's entries |
| SemanticSimilarities.SemanticSimilarity.PerDescriptor | ComputeSimilarities/semsim.py:122-139 | a fresh symmetric descriptor matrix of the measure and the ancestor log; the first failing cell's error, or ValueError from Jiang's normalisation on an empty matrix |
| SemanticSimilarities.SemanticSimilarity.ObjectRowValues | ComputeSimilarities/semsim.py:96-97 | the similarities of object i with objects i.., up to the first that fails, and that failure |
| SemanticSimilarities.SemanticSimilarity.DiseasewiseRow | ComputeSimilarities/semsim.py:96-99 | one outer iteration: fills row i and its mirror or stops at the first failing cell |
| SemanticSimilarities.SemanticSimilarity.Diseasewise | ComputeSimilarities/semsim.py:93-99 | a fresh object matrix that is the symmetric fill of the measure, or the first failure in visiting order |
| SemanticSimilarities.SemanticSimilarity.Termwise | ComputeSimilarities/semsim.py:102-119 | KeyError when a direct annotation is not a descriptor, AttributeError when the descriptor matrix was never computed, otherwise the symmetric fill with the strategy's value of each object pair's submatrix, or its first failure |
| IsmMeasure.Divide | ComputeSimilarities/similarity_measures.py:249 | numpy division: finite exactly when the denominator is non-zero, and then the quotient times the denominator is the numerator (also line 294) |
| IsmMeasure.HalfSum | ComputeSimilarities/similarity_measures.py:220 | `0.5 * (x + h)`: finite exactly when x is, and then twice the value is x + h |
| IsmMeasure.Annotated | ComputeSimilarities/similarity_measures.py:193 | the descriptors with at least one annotated object, in their order, each once when the input is distinct |
| IsmMeasure.LeafPositions | ComputeSimilarities/similarity_measures.py:198 | the positions of the descriptors whose node has no children, ascending |
| IsmMeasure.KidIdentifiers | ComputeSimilarities/similarity_measures.py:238 | a child identifier is listed exactly when it is one of the descriptors |
| IsmMeasure.CountSumSnoc | ComputeSimilarities/similarity_measures.py:244 | the running total N_u grows by each child's annotation count |
| IsmMeasure.CountSumMember | ComputeSimilarities/similarity_measures.py:244-249 | each child's count N_c is at most N_u |
| IsmMeasure.SetSumRemove | ComputeSimilarities/similarity_measures.py:241-244 | summing over a set can take any member first |
| IsmMeasure.ListSumIsSetSum | ComputeSimilarities/similarity_measures.py:238-244 | summing over a list without repeats is summing over its set, whatever the iteration order |
| IsmMeasure.KidCountSum | ComputeSimilarities/similarity_measures.py:238-244 | N_u is the sum of the counts of the children that are descriptors |
| IsmMeasure.UnitShare | ComputeSimilarities/similarity_measures.py:249 | the share (1 - N_v*/N_v) * N_c/N_u is in [0, 1] |
| IsmMeasure.NuCovers | ComputeSimilarities/similarity_measures.py:244-249 | a descriptor child's count is at most N_u |
| IsmMeasure.ShareUnit | ComputeSimilarities/similarity_measures.py:249 | every child's transition probability is in [0, 1] |
| IsmMeasure.KidsOf | ComputeSimilarities/similarity_measures.py:238 | the children of a descriptor's node are nodes of the thesaurus |
| IsmMeasure.PSpecUnit | ComputeSimilarities/similarity_measures.py:228-249 | every entry of the transition matrix is in [0, 1] |
| IsmMeasure.OtherCell | ComputeSimilarities/similarity_measures.py:230-249 | a cell that is not a descriptor child's is written only on a leaf's diagonal, where it is 1, and is 0 otherwise |
| IsmMeasure.ChildCell | ComputeSimilarities/similarity_measures.py:247-249 | a descriptor child's cell is written, its denominators are non-zero, and its value is the child's share |
| IsmMeasure.PCellsAgree | ComputeSimilarities/similarity_measures.py:228-249 | the cell functions used by the fill are the transition matrix and its written cells |
| IsmMeasure.FillP | ComputeSimilarities/similarity_measures.py:228-250 | every cell of P ends up with its transition probability |
| IsmMeasure.PColumn | ComputeSimilarities/similarity_measures.py:233-249 | one descriptor's iteration sets its column of P to the transition probabilities and nothing else |
| IsmMeasure.ColumnWrites | ComputeSimilarities/similarity_measures.py:233-249 | the cells written for a descriptor carry their transition probabilities, and every other cell of the column already has its value |
| IsmMeasure.ColumnFacts | ComputeSimilarities/similarity_measures.py:238-249 | the computed writes are exactly the descriptor's children with their shares |
| IsmMeasure.ShareList | ComputeSimilarities/similarity_measures.py:247-249 | one write per child: its index and its share |
| IsmMeasure.ShareFacts | ComputeSimilarities/similarity_measures.py:240-249 | the tallied counts give each child's share, with non-zero denominators |
| IsmMeasure.ShareValue | ComputeSimilarities/similarity_measures.py:249 | a child's cell is written and has its share as value |
| IsmMeasure.WriteColumn | ComputeSimilarities/similarity_measures.py:247-249 | the named cells of the column get their values and no other cell changes |
| IsmMeasure.AMatrix | ComputeSimilarities/similarity_measures.py:273-281 | A has a row per descriptor and a column per object, each entry 1/\|S_i\| or 0 |
| IsmMeasure.AUnit | ComputeSimilarities/similarity_measures.py:280 | every entry of A is in [0, 1], and a non-zero one is on an annotated descriptor |
| IsmMeasure.LeafSpreadsToItself | ComputeSimilarities/similarity_measures.py:279 | a leaf's only childless descendant is itself |
| IsmMeasure.LeafReach | ComputeSimilarities/thesaurus.py:73-81 | a leaf has no descendant but itself |
| IsmMeasure.AColumn | ComputeSimilarities/similarity_measures.py:278-280 | an object's column is filled exactly when none of its annotations raises; else the error is one of theirs; other columns are unchanged |
| IsmMeasure.Spread | ComputeSimilarities/similarity_measures.py:279-280 | one annotation: the error it raises, or its cell set to 1/\|S_i\|; no other cell changes |
| IsmMeasure.LeafIdentifiers | ComputeSimilarities/similarity_measures.py:279 | computes the identifiers of the childless descendants |
| IsmMeasure.SetCell | ComputeSimilarities/similarity_measures.py:280 | only the cell written changes |
| IsmMeasure.ComputeA | ComputeSimilarities/similarity_measures.py:273-281 | succeeds exactly when no annotation raises (unknown node, no childless descendant, unindexed descriptor), else one of their errors; on success a fresh matrix equal to A |
| IsmMeasure.DotSymmetric | ComputeSimilarities/similarity_measures.py:293 | the dot product is symmetric |
| IsmMeasure.RowsAt | ComputeSimilarities/similarity_measures.py:270 | `W[leaves]`: the chosen rows, in order |
| IsmMeasure.Product | ComputeSimilarities/similarity_measures.py:270 | the matrix product has the rows of the left factor and the columns of the right |
| IsmMeasure.Identity | ComputeSimilarities/similarity_measures.py:202 | the identity matrix is square |
| IsmMeasure.DotUnit | ComputeSimilarities/similarity_measures.py:270 | a unit row picks out one entry |
| IsmMeasure.DotZero | ComputeSimilarities/similarity_measures.py:270 | a zero row gives 0 |
| IsmMeasure.ProductIdentity | ComputeSimilarities/similarity_measures.py:202 | with W still the identity, B is the leaves' rows of A (also line 270) |
| IsmMeasure.ProductNonneg | ComputeSimilarities/similarity_measures.py:270 | B of non-negative factors is non-negative |
| IsmMeasure.DotNonneg | ComputeSimilarities/similarity_measures.py:293 | non-negative vectors have a non-negative dot product |
| IsmMeasure.RwcSymmetric | ComputeSimilarities/similarity_measures.py:290-294 | the RWC value of (i, j) is that of (j, i) |
| IsmMeasure.RwcUnit | ComputeSimilarities/similarity_measures.py:294 | with B's entries in [0, 1] a finite RWC value is in [0, 1] |
| IsmMeasure.DotBelowSum | ComputeSimilarities/similarity_measures.py:294 | the common part b_i·b_j is at most the sum of b_i |
| IsmMeasure.Genewise | ComputeSimilarities/similarity_measures.py:283-294 | each cell on or above the diagonal gets its RWC value; cells below it are not touched |
| IsmMeasure.Combine | ComputeSimilarities/similarity_measures.py:220 | ValueError exactly when an axis of HSM neither has the n of the n by n RWC nor length 1, while n is not 1 either; otherwise each axis is the longer of the two, a length-1 axis of either matrix repeats its one entry, and each entry is finite with the RWC entry it reads and twice it is that entry plus HSM's |
| IsmMeasure.CombineGenewise | ComputeSimilarities/similarity_measures.py:218-220 | when RWC holds the genewise values on and above the diagonal and 0 below it, each entry of the combination is half the sum of HSM's entry and the genewise entry (0 below the diagonal) at the broadcast position |
| IsmMeasure.FloatContents | ComputeSimilarities/similarity_measures.py:220 | the matrix value of the RWC array, entry by entry |
| IsmMeasure.Filled | ComputeSimilarities/similarity_measures.py:201-207 | `np.zeros`: a fresh array of the shape with every entry the value |
| IsmMeasure.ISM.constructor | ComputeSimilarities/similarity_measures.py:181-207 | the annotated descriptors, zero P, B, RWC and ISM of the right shapes, and the HSM kept |
| IsmMeasure.ISM.Ready | ComputeSimilarities/similarity_measures.py:193 | every annotated descriptor has a node, so the transition matrix is defined (also line 238) |
| IsmMeasure.ISM.PUnit | ComputeSimilarities/similarity_measures.py:228-249 | every transition probability is in [0, 1] |
| IsmMeasure.ISM.InitialiseP | ComputeSimilarities/similarity_measures.py:228-250 | P holds the transition probability of every cell |
| IsmMeasure.ISM.PColumns | ComputeSimilarities/similarity_measures.py:230-249 | column v of P adds up to 1 - |N_v*|/N_v when v has descriptor children (no two sharing an identifier), and to 1 when v is a leaf |
| IsmMeasure.ISM.DistinctDescriptors | ComputeSimilarities/similarity_measures.py:193-195 | the descriptors of the measure are distinct, each at its own index |
| IsmMeasure.PColumnMass | ComputeSimilarities/similarity_measures.py:230-249 | with distinct descriptors and no two children sharing an identifier, column v of P adds up to 1 - |N_v*|/N_v when v has descriptor children, to 1 for a leaf, and to 0 when v has children none of which is a descriptor |
| IsmMeasure.ColumnSumShares | ComputeSimilarities/similarity_measures.py:247-249 | down the descriptors, the partial sum of a column with descriptor children is (1 - |N_v*|/N_v) times the counts of the children seen so far over N_u |
| IsmMeasure.ColumnCell | ComputeSimilarities/similarity_measures.py:247-249 | a cell of a column with descriptor children is the child's share of N_u scaled by 1 - |N_v*|/N_v when its descriptor is a child, and 0 otherwise |
| IsmMeasure.ColumnSumNoChild | ComputeSimilarities/similarity_measures.py:230-249 | a column without descriptor children sums to 1 for a leaf (its diagonal cell) and to 0 otherwise |
| IsmMeasure.NuIsKidCount | ComputeSimilarities/similarity_measures.py:238-244 | with no two children sharing an identifier, N_u is the sum of the counts of the children's identifiers |
| IsmMeasure.ISM.Indexed | ComputeSimilarities/similarity_measures.py:195 | the index table maps each descriptor to its position |
| IsmMeasure.ISM.Ism | ComputeSimilarities/similarity_measures.py:210-220 | P is initialised; an exception of A leaves B, RWC and ISM unchanged; otherwise B = W[leaves]·A and RWC holds the genewise values on and above the diagonal; a shape of HSM that does not broadcast is a ValueError; on success ISM has the broadcast shape and each entry is 0.5·(RWC + HSM), with RWC's genewise value on and above the diagonal and 0 below it, a length-1 axis repeating |
| IsmMeasure.ISM.Combined | ComputeSimilarities/similarity_measures.py:215-220 | given A, B = W[leaves]·A and RWC holds the genewise values on and above the diagonal; the combination fails with a ValueError exactly when HSM does not broadcast, leaving ISM as it was; otherwise ISM has the broadcast shape and each entry is 0.5·(RWC + HSM), with RWC's genewise value on and above the diagonal and 0 below it, a length-1 axis repeating |
| IsmMeasure.NewISM | ComputeSimilarities/similarity_measures.py:181-207 | KeyError exactly when an annotated descriptor has no node; otherwise a fresh measure over the objects and annotated descriptors |
| IsmMeasure.Children | ComputeSimilarities/similarity_measures.py:238-244 | the descriptor children of a node, whose counts add up to N_u |
| IsmMeasure.ChildrenCount | ComputeSimilarities/similarity_measures.py:238-244 | the children's counts add up to N_u, whatever the order |
| IsmMeasure.UnionSnoc | ComputeSimilarities/similarity_measures.py:245 | one more child removes its objects from N_v* |
| IsmMeasure.Tally | ComputeSimilarities/similarity_measures.py:240-245 | the loop computes N_u, the objects no child carries (N_v*) and each child's count N_c |
| MeshParser.After | ComputeSimilarities/mesh_parser.py:124-126 | the text after the first occurrence of the separator, so that the text before, the separator and it make up the line |
| MeshParser.Third | ComputeSimilarities/mesh_parser.py:118-120 | `line.split()[2]`: IndexError exactly when the line has fewer than three tokens, otherwise that token, non-empty and without whitespace |
| MeshParser.HeadingOf | ComputeSimilarities/mesh_parser.py:124 | the name is the stripped text between the first and the second `=` |
| MeshParser.SynonymOf | ComputeSimilarities/mesh_parser.py:125-129 | the synonym is the text before the first `\|` of the stripped text after the first `=`, and there is none without a `\|` |
| MeshParser.KindOf | ComputeSimilarities/mesh_parser.py:99-129 | classifies a stripped line by its prefix, testing UI, MN, MH and the two ENTRY forms in order; a blank line is exactly the empty one |
| MeshParser.Classify | ComputeSimilarities/mesh_parser.py:98 | the stripped line's kind |
| MeshParser.InCategories | ComputeSimilarities/mesh_parser.py:102 | a position is kept exactly when it is non-empty and its first letter is a category of the thesaurus, order kept |
| MeshParser.Advance | ComputeSimilarities/mesh_parser.py:99-129 | one line: a blank line closes the record (kept when a position survives the filter) and starts afresh; UI and MN set the identifier or append a position (a tree when it has no `.`), failing with IndexError without a third token; MH sets the name, ENTRY appends a synonym; other lines change nothing |
| MeshParser.FoldStep | ComputeSimilarities/mesh_parser.py:97-129 | reading one more line applies that line's transition to the state after the prefix |
| MeshParser.FoldErrorStays | ComputeSimilarities/mesh_parser.py:97-129 | once a line fails, the read fails with that error |
| MeshParser.FoldGathering | ComputeSimilarities/mesh_parser.py:117-122 | the open record's positions are tokens and it is a tree exactly when one of them has no `.` |
| MeshParser.FoldKept | ComputeSimilarities/mesh_parser.py:102-103 | every closed record has a position and lies in the selected categories |
| MeshParser.Kinds | ComputeSimilarities/mesh_parser.py:97-98 | one kind per line |
| MeshParser.Records | ComputeSimilarities/mesh_parser.py:97-137 | the only error of reading the lines is IndexError |
| MeshParser.FoldFails | ComputeSimilarities/mesh_parser.py:118-120 | a failed read is the error of some UI or MN line without a third token |
| MeshParser.RecordsShape | ComputeSimilarities/mesh_parser.py:99-137 | the records are the closed ones, each in the selected categories, followed by at most one final record that keeps all its positions, has no synonyms set, and is a tree exactly when a position has no `.` |
| MeshParser.Turn | ComputeSimilarities/mesh_parser.py:98-129 | one iteration of the reading loop computes the line's transition |
| MeshParser.ParseRecords | ComputeSimilarities/mesh_parser.py:91-137 | the loop computes the records of the file, or the IndexError of a UI or MN line without a third token |
| MeshParser.ParseLine | ComputeSimilarities/mesh_parser.py:98-129 | one stripped line advances the fold of the line kinds by one step, or is the IndexError of a UI or MN line without a third token |
| MeshParser.AvailableNamed | ComputeSimilarities/mesh_parser.py:48-60 | a category is available exactly when it is one letter of the fixed table |
| MeshParser.Letter | ComputeSimilarities/mesh_parser.py:69 | a one-letter position is its own tree and category |
| MeshParser.RootNodeCreated | ComputeSimilarities/mesh_parser.py:69-70 | a root node is the node created with the category's name, its letter as identifier and only position, then made dummy |
| MeshParser.GenericNodeCreated | ComputeSimilarities/mesh_parser.py:76-78 | the generic node is the node created with `GEN` as name, identifier and position, then made dummy |
| MeshParser.TakeSnoc | ComputeSimilarities/mesh_parser.py:68 | one more loop iteration covers one more element |
| MeshParser.LastIndex | ComputeSimilarities/thesaurus.py:150 | the last position holding a key, or -1 |
| MeshParser.LastHolder | ComputeSimilarities/thesaurus.py:221-222 | the last node whose positions hold a key, or -1 |
| MeshParser.RegisteredIndexed | ComputeSimilarities/thesaurus.py:219-222 | after registering a node, every position maps to a node that has it |
| MeshParser.WithRootsSnoc | ComputeSimilarities/mesh_parser.py:68-72 | one more category applies one more root step |
| MeshParser.WithRootsShape | ComputeSimilarities/mesh_parser.py:67-72 | after the roots, each category letter maps to its root node and is recorded by name; every other key keeps its entry and the tree tables are untouched |
| MeshParser.WithRootsIndexed | ComputeSimilarities/mesh_parser.py:67-72 | adding the roots keeps identifiers and positions pointing at nodes that have them |
| MeshParser.AddRoot | ComputeSimilarities/mesh_parser.py:69-72 | the thesaurus tables become those with one more root |
| MeshParser.CreateRootNodes | ComputeSimilarities/mesh_parser.py:67-72 | KeyError exactly when a category is not in the fixed table; otherwise the tables with every root added |
| MeshParser.WithGenericIndexed | ComputeSimilarities/mesh_parser.py:76-80 | adding `GEN` keeps the tables indexed |
| MeshParser.NewGenericNode | ComputeSimilarities/mesh_parser.py:76-80 | `GEN` is a new node, recorded as a category and registered |
| MeshParser.WithRecordsSnoc | ComputeSimilarities/mesh_parser.py:103-109 | one more record applies one more record step |
| MeshParser.WithRecordIndexed | ComputeSimilarities/mesh_parser.py:104-109 | adding a record keeps the tables indexed |
| MeshParser.WithRecordsIndexed | ComputeSimilarities/mesh_parser.py:103-137 | adding all records keeps the tables indexed |
| MeshParser.AddRecord | ComputeSimilarities/mesh_parser.py:104-109 | IndexError exactly when the record is not addable; otherwise a new node with the record's name, identifier, positions and synonyms, dummy and filed with its tree name when it is a tree, then registered |
| MeshParser.AddRecords | ComputeSimilarities/mesh_parser.py:103-137 | IndexError exactly when a record is not addable; otherwise the tables with every record added in order |
| MeshParser.Link | ComputeSimilarities/mesh_parser.py:84-85 | the parent goes into the child's parent set and the child into the parent's child set; nothing else changes (also lines 145-146, 155-156) |
| MeshParser.LinkedNone | ComputeSimilarities/mesh_parser.py:139-158 | no edge links nothing |
| MeshParser.LinkedStep | ComputeSimilarities/mesh_parser.py:145-156 | one more link adds one edge |
| MeshParser.LinkedTrans | ComputeSimilarities/mesh_parser.py:139-158 | two linking passes in a row add the edges of both |
| MeshParser.LinkBelow | ComputeSimilarities/mesh_parser.py:82-85 | KeyError exactly when a category id names no node; otherwise every category node is linked below `GEN` |
| MeshParser.LinkAbove | ComputeSimilarities/mesh_parser.py:143-146 | KeyError exactly when a category id names no node; otherwise the tree node is linked below each of its category nodes |
| MeshParser.AddGenericNode | ComputeSimilarities/mesh_parser.py:75-85 | `GEN` is added, recorded and registered; KeyError exactly when a category id names no node; otherwise every category is linked below it (it is then among them, its own parent and child) |
| MeshParser.TreeEdgesAdd | ComputeSimilarities/mesh_parser.py:140-146 | one more tree adds its links to its categories |
| MeshParser.LinkedCategories | ComputeSimilarities/mesh_parser.py:143 | linking does not change a node's categories |
| MeshParser.LinkTrees | ComputeSimilarities/mesh_parser.py:139-146 | KeyError exactly when a tree or one of its categories names no node; otherwise each tree node is linked below its category nodes |
| MeshParser.ParentOfChild | ComputeSimilarities/mesh_parser.py:153 | the parent position of `a.b` with no `.` in `b` is `a`, stripped |
| MeshParser.ParentOfTop | ComputeSimilarities/mesh_parser.py:153 | a position without `.` has the empty parent position |
| MeshParser.PositionEdgesAdd | ComputeSimilarities/mesh_parser.py:149-156 | one more node adds its links to the nodes at its parent positions |
| MeshParser.CategoryIndexStep | ComputeSimilarities/mesh_parser.py:157-158 | one more node files its identifier under each of its categories |
| MeshParser.LinkToParents | ComputeSimilarities/mesh_parser.py:152-156 | KeyError exactly when a parent position has no node; otherwise the node is linked below the node at each parent position |
| MeshParser.IndexCategories | ComputeSimilarities/mesh_parser.py:157-158 | the identifier is added under each of the node's categories and nothing else changes |
| MeshParser.LinkedPositionsKept | ComputeSimilarities/mesh_parser.py:151-157 | linking changes neither the positions to link nor the categories |
| MeshParser.LinkNode | ComputeSimilarities/mesh_parser.py:150-156 | a node that is not dummy is linked below the nodes at its parent positions (KeyError exactly when one is missing); a dummy is left alone |
| MeshParser.LinkPositions | ComputeSimilarities/mesh_parser.py:148-158 | KeyError exactly when some parent position has no node; otherwise every node is linked to its parents and filed under its categories |
| MeshParser.EdgesKept | ComputeSimilarities/mesh_parser.py:139-158 | linking does not change the edges the later passes compute nor whether their lookups succeed |
| MeshParser.CategoryIndexKept | ComputeSimilarities/mesh_parser.py:157-158 | the category index does not depend on the links |
| MeshParser.LinkedExtend | ComputeSimilarities/mesh_parser.py:103-109 | nodes added after a linking keep its links |
| MeshParser.IndexedLinked | ComputeSimilarities/mesh_parser.py:139-158 | linking keeps the tables indexed |
| MeshParser.WithRecordRelinked | ComputeSimilarities/mesh_parser.py:104-109 | adding a record appends its node and ignores earlier nodes' links |
| MeshParser.WithRecordsRelinked | ComputeSimilarities/mesh_parser.py:103-137 | adding records appends their nodes, does not depend on earlier links and leaves the categories alone |
| MeshParser.Relinked | ComputeSimilarities/mesh_parser.py:161-174 | adding records to linked nodes gives the records' tables with those links kept |
| MeshParser.StartedShape | ComputeSimilarities/mesh_parser.py:167-171 | the started tables hold the roots, then `GEN` when asked |
| MeshParser.GenericSelfLoop | ComputeSimilarities/mesh_parser.py:79-85 | `GEN` is recorded as a category before the linking loop, so it is linked as its own parent and child |
| MeshParser.GenericEdgesBounded | ComputeSimilarities/mesh_parser.py:82-85 | the links to `GEN` join nodes of the started thesaurus |
| MeshParser.BuiltShape | ComputeSimilarities/mesh_parser.py:161-174 | a built thesaurus is indexed and its category index starts empty |
| MeshParser.Built | ComputeSimilarities/mesh_parser.py:161-174 | the tables `get_thesaurus` builds before linking; `MeshParser.BuiltShape` and `MeshParser.GetThesaurus` state their shape and that the method builds exactly them |
| MeshParser.LinkHierarchy | ComputeSimilarities/mesh_parser.py:139-158 | KeyError exactly when a tree, category or parent position lookup fails; otherwise all hierarchy links are added and every node is filed under its categories |
| MeshParser.ParseMeSHFile | ComputeSimilarities/mesh_parser.py:88-158 | succeeds exactly when the file reads, every record is addable and every lookup of the linking passes succeeds; then the tables are those of the records added and linked |
| MeshParser.StartThesaurus | ComputeSimilarities/mesh_parser.py:167-171 | a fresh thesaurus with a root per category and `GEN` linked above them when asked; KeyError on an unknown category |
| MeshParser.CategoryIndexFromEmpty | ComputeSimilarities/mesh_parser.py:157-158 | the category index files exactly the identifiers whose node has that category |
| MeshParser.Assembled | ComputeSimilarities/mesh_parser.py:161-174 | starting, reading and linking give the built tables with the generic and the hierarchy links |
| MeshParser.GetThesaurus | ComputeSimilarities/mesh_parser.py:161-174 | a fresh thesaurus; KeyError for an unknown category, otherwise success exactly when the file builds; then its tables are the built ones, linked with the generic and the hierarchy edges, every node filed under its categories |
| ExtractUniquePubmed.Fields | MIM2Pubmed/extract_unique_pubmed.py:15-16 | one list of publication ids per line: the tab-separated fields of the stripped line after the first |
| ExtractUniquePubmed.UnionsMembers | MIM2Pubmed/extract_unique_pubmed.py:16 | an id is in the union exactly when one of the lines lists it |
| ExtractUniquePubmed.CollectedMembers | MIM2Pubmed/extract_unique_pubmed.py:13-16 | the collected ids are exactly those some line lists after its OMIM id |
| ExtractUniquePubmed.SingleFieldLine | MIM2Pubmed/extract_unique_pubmed.py:16 | a line with a single field adds nothing |
| ExtractUniquePubmed.OrderIndependent | MIM2Pubmed/extract_unique_pubmed.py:13-16 | the collected set depends only on which lines occur, not on their order or repetition |
| ExtractUniquePubmed.Run | MIM2Pubmed/extract_unique_pubmed.py:12-19 | the lines written are exactly the collected ids, each once |
| ExtractOmimList.SecondField | MIM2Pubmed/extract_omim_list.py:19 | IndexError exactly when the stripped line holds no tab; otherwise its second tab-separated field |
| ExtractOmimList.Entry | MIM2Pubmed/extract_omim_list.py:17-19 | a comment line contributes nothing; any other line its second field or the IndexError of looking for it |
| ExtractOmimList.Entries | MIM2Pubmed/extract_omim_list.py:16-19 | one entry per line |
| ExtractOmimList.Gather | MIM2Pubmed/extract_omim_list.py:14-19 | a failure is the error of some line |
| ExtractOmimList.GatherFails | MIM2Pubmed/extract_omim_list.py:16-19 | gathering fails exactly when some line fails |
| ExtractOmimList.GatherMembers | MIM2Pubmed/extract_omim_list.py:19 | an id is gathered exactly when some line yields it |
| ExtractOmimList.Gathered | MIM2Pubmed/extract_omim_list.py:14-19 | the only error is IndexError |
| ExtractOmimList.GatheredFails | MIM2Pubmed/extract_omim_list.py:17-19 | the read fails exactly when some non-comment line has no tab |
| ExtractOmimList.GatheredMembers | MIM2Pubmed/extract_omim_list.py:19 | the ids are exactly the second fields of the non-comment lines |
| ExtractOmimList.CommentIgnored | MIM2Pubmed/extract_omim_list.py:17-18 | a comment line changes nothing |
| ExtractOmimList.Run | MIM2Pubmed/extract_omim_list.py:13-22 | IndexError exactly when some non-comment line has no tab, before anything is written; otherwise the lines written are exactly the gathered ids, each once |
| MeshFormatter.Render | PubMed2MeSH/mesh_formatter.py:27 | an output line is the heading, one tab, then the identifier |
| MeshFormatter.Parts | PubMed2MeSH/mesh_formatter.py:21 | splitting the stripped line on `=` gives at least one part, and a second one exactly when the line holds `=` |
| MeshFormatter.Key | PubMed2MeSH/mesh_formatter.py:21-24 | the stripped first part of a line never holds `=` |
| MeshFormatter.Value | PubMed2MeSH/mesh_formatter.py:23-25 | taking the second part fails with IndexError exactly when the stripped line has no `=`; otherwise it is the stripped text between the first and the second `=` |
| MeshFormatter.Classify | PubMed2MeSH/mesh_formatter.py:17-25 | a line is a record marker exactly when it contains `*NEWRECORD`, otherwise a heading when its key is `MH` and an identifier when it is `UI`, carrying the value read from it |
| MeshFormatter.Advance | PubMed2MeSH/mesh_formatter.py:17-29 | a marker enters a record; outside a record nothing changes; a heading or identifier line without `=` fails only inside a record; a pair is written only when both fields are set, and it resets them |
| MeshFormatter.EitherOrder | PubMed2MeSH/mesh_formatter.py:22-29 | heading then identifier and identifier then heading write the same single pair |
| MeshFormatter.AdvanceInRecord | PubMed2MeSH/mesh_formatter.py:20-29 | inside a record a heading or identifier line replaces its field, and the pair is written and cleared once both fields are non-empty |
| MeshFormatter.FoldNoRecord | PubMed2MeSH/mesh_formatter.py:16-20 | lines before any marker change nothing and write nothing |
| MeshFormatter.FoldInvariant | PubMed2MeSH/mesh_formatter.py:16-29 | the fields held are always stripped and free of `=`, every written pair has non-empty stripped fields, and the scan is in a record exactly when a marker has been seen |
| MeshFormatter.FoldStep | PubMed2MeSH/mesh_formatter.py:16-29 | one more line either stops the run with its error or appends what that line writes |
| MeshFormatter.FoldErrorStays | PubMed2MeSH/mesh_formatter.py:16-29 | once a line has raised an error, the later lines change nothing |
| MeshFormatter.FoldFails | PubMed2MeSH/mesh_formatter.py:23-25 | a failed run failed on a heading or identifier line whose value read failed with the same error |
| MeshFormatter.Kinds | PubMed2MeSH/mesh_formatter.py:16-25 | the lines classified one by one |
| MeshFormatter.Scanned | PubMed2MeSH/mesh_formatter.py:8-29 | the only error the run can raise is IndexError |
| MeshFormatter.NothingBeforeRecord | PubMed2MeSH/mesh_formatter.py:16-20 | a file without `*NEWRECORD` produces no output |
| MeshFormatter.ScannedInvariant | PubMed2MeSH/mesh_formatter.py:16-29 | the invariant of the loop holds over whole files |
| MeshFormatter.ReadField | PubMed2MeSH/mesh_formatter.py:20-29 | one loop step inside a record, as a method, agrees with the step function |
| MeshFormatter.Run | PubMed2MeSH/mesh_formatter.py:8-30 | the loop fails exactly when the scan fails, with IndexError; otherwise it writes one rendered line per pair the scan collects, in order |
| WriteFiles.RowCells | ComputeSimilarities/writeFiles.py:30 | row `i` visits the cells `(i, i)` up to the last column, in order |
| WriteFiles.UpperCellsMembers | ComputeSimilarities/writeFiles.py:29-30 | the loops visit a cell exactly when it lies in the matrix on or above the diagonal |
| WriteFiles.UpperCellsSorted | ComputeSimilarities/writeFiles.py:29-30 | the cells are visited in row-major order |
| WriteFiles.Kept | ComputeSimilarities/writeFiles.py:31 | keeping only the non-zero cells never adds cells |
| WriteFiles.KeptMembers | ComputeSimilarities/writeFiles.py:31 | a cell is kept exactly when it is visited and its value is non-zero |
| WriteFiles.KeptSorted | ComputeSimilarities/writeFiles.py:31 | keeping cells preserves row-major order |
| WriteFiles.TripletsKept | ComputeSimilarities/writeFiles.py:29-32 | writing fails, with IndexError, exactly when a kept cell has no object for its row or column; otherwise it writes one line per kept cell, in order, with the two objects and the value |
| WriteFiles.Triplets | ComputeSimilarities/writeFiles.py:29-32 | the lines `printTriplets` writes over the visited cells and whether it got through; `WriteFiles.TripletsKept` and the lemmas beside it state which lines and when it fails |
| WriteFiles.TripletsLocal | ComputeSimilarities/writeFiles.py:29-32 | the output depends only on the values at the visited cells |
| WriteFiles.UpperPrefix | ComputeSimilarities/writeFiles.py:29-30 | the cells of the first rows are a prefix of the cells of more rows |
| WriteFiles.TripletsStuck | ComputeSimilarities/writeFiles.py:32 | after an IndexError, later cells change nothing |
| WriteFiles.LowerTriangleIgnored | ComputeSimilarities/writeFiles.py:29-32 | two matrices that agree on and above the diagonal are written identically |
| WriteFiles.TripletsSnoc | ComputeSimilarities/writeFiles.py:29-32 | one more cell adds exactly that cell's step |
| WriteFiles.WriteCell | ComputeSimilarities/writeFiles.py:31-32 | one step of the inner loop, over the array, agrees with the step function |
| WriteFiles.RowFoldTriplets | ComputeSimilarities/writeFiles.py:29-32 | visiting row i cell by cell up to column j, after the earlier rows, equals the writer on the earlier rows' cells followed by the first j - i cells of row i |
| WriteFiles.RowFoldStuck | ComputeSimilarities/writeFiles.py:31-32 | once a cell of the row has failed with IndexError, the later cells of that row change neither the lines nor the error |
| WriteFiles.RowFoldRow | ComputeSimilarities/writeFiles.py:29-32 | visiting all of row i after the earlier rows equals the writer on the first i + 1 rows |
| WriteFiles.WriteRowCells | ComputeSimilarities/writeFiles.py:30-32 | the inner loop over columns i .. cols - 1 of the array gives the cell-by-cell fold of the step function over that row, stopping at the first error |
| WriteFiles.WriteRow | ComputeSimilarities/writeFiles.py:30-32 | the inner loop over one row extends the output of the previous rows by that row's cells |
| WriteFiles.WriteTriplet | ComputeSimilarities/writeFiles.py:27-32 | the nested loops over the array write exactly the triplets of its upper triangle |
| WriteFiles.KeyLines | ComputeSimilarities/writeFiles.py:37-38 | one line per entry of a key's list, in order, with the key and the entry's three fields |
| WriteFiles.SelectedMembers | ComputeSimilarities/writeFiles.py:36-38 | a line is written exactly when its key is one of the keys and its last three fields are an entry of that key's list |
| WriteFiles.SelectedLines | ComputeSimilarities/writeFiles.py:36-38 | the lines written for the selected descriptors; `WriteFiles.SelectedMembers` states exactly which they are |
| WriteFiles.SelectedPrefix | ComputeSimilarities/writeFiles.py:36-38 | the lines of the first keys are a prefix of all the lines |
| WriteFiles.WriteKey | ComputeSimilarities/writeFiles.py:37-38 | the inner loop appends the lines of one key |
| WriteFiles.WriteSelectedDescriptor | ComputeSimilarities/writeFiles.py:34-38 | the loops write, key after key, one line per entry of each key's list |
| SimpleSimilarities.Jaccard | SimpleSimilarities/simple_similarities.py:60-64 | the Jaccard index lies in [0, 1], is positive exactly when the sets meet, is 0 for two empty sets (the caught division by zero), is 1 exactly when the sets are equal, and times the size of the union gives the size of the intersection |
| SimpleSimilarities.Dice | SimpleSimilarities/simple_similarities.py:66-70 | the Dice index lies in [0, 1], is positive exactly when the sets meet, is 0 for two empty sets, is 1 exactly when they are equal, and times the sum of the sizes gives twice the intersection |
| SimpleSimilarities.DiceCards | SimpleSimilarities/simple_similarities.py:68 | twice the intersection is at most the sum of the sizes, with equality exactly for equal sets |
| SimpleSimilarities.Overlap | SimpleSimilarities/simple_similarities.py:72-76 | the overlap coefficient lies in [0, 1], is positive exactly when the sets meet, is 0 when either set is empty, and is 1 exactly when one set contains the other |
| SimpleSimilarities.OverlapCards | SimpleSimilarities/simple_similarities.py:74 | the intersection is no larger than either set, and as large as the smaller one exactly when one contains the other |
| SimpleSimilarities.NumCommon | SimpleSimilarities/simple_similarities.py:78-79 | the number of shared elements, positive exactly when the sets meet and at most the size of either |
| SimpleSimilarities.MeasureOf | SimpleSimilarities/simple_similarities.py:82-93 | keys 0 to 3 select jaccard, dice, overlap and num_common; any other key is a KeyError |
| SimpleSimilarities.Similarity | SimpleSimilarities/simple_similarities.py:60-79 | every measure is non-negative and positive exactly when the sets meet; all but num_common are at most 1 |
| SimpleSimilarities.SimilaritySymmetric | SimpleSimilarities/simple_similarities.py:60-79 | every measure is symmetric in its two sets |
| SimpleSimilarities.Kept | SimpleSimilarities/simple_similarities.py:54-56 | filtering an object's descriptors never adds any |
| SimpleSimilarities.KeptMembers | SimpleSimilarities/simple_similarities.py:54-56 | a descriptor is kept exactly when it is listed and its categories meet the wanted ones; one without tree positions is dropped |
| SimpleSimilarities.KeptAppend | SimpleSimilarities/simple_similarities.py:54-56 | filtering distributes over concatenation of descriptor lists |
| SimpleSimilarities.KeptCount | SimpleSimilarities/simple_similarities.py:54-56 | a kept descriptor keeps all its repetitions, a dropped one none |
| SimpleSimilarities.FilteredMembers | SimpleSimilarities/simple_similarities.py:51-58 | the filtered mapping lists `d` for `v` exactly when the mapping does and `d` is in a wanted category; an object with nothing kept gets no entry |
| SimpleSimilarities.FilteredStep | SimpleSimilarities/simple_similarities.py:53-56 | one more object adds its kept list, or nothing when it keeps none |
| SimpleSimilarities.FilterAnnotation | SimpleSimilarities/simple_similarities.py:51-58 | the loops build exactly the filtered mapping |
| SimpleSimilarities.FilterObject | SimpleSimilarities/simple_similarities.py:54-56 | the inner loop creates the object's entry only when a descriptor is kept, and then holds exactly the kept ones |
| SimpleSimilarities.FirstSegmentLetter | SimpleSimilarities/simple_similarities.py:39 | for a token without blanks, the first dotted segment is empty exactly when it starts with `.`, and otherwise starts with the token's first letter |
| SimpleSimilarities.Categories | SimpleSimilarities/simple_similarities.py:39 | reading the categories of a line can fail only with IndexError |
| SimpleSimilarities.CategoriesMembers | SimpleSimilarities/simple_similarities.py:39 | the categories are read exactly when no position starts with `.`, and are then the first letters of the positions |
| SimpleSimilarities.TreeLine | SimpleSimilarities/simple_similarities.py:38-39 | a line can fail only with IndexError |
| SimpleSimilarities.TreeLineMembers | SimpleSimilarities/simple_similarities.py:38-39 | a line is read exactly when it has a token and no later token starts with `.`; it maps its first token to the first letters of the later ones |
| SimpleSimilarities.Entries | SimpleSimilarities/simple_similarities.py:37-39 | the lines read one by one |
| SimpleSimilarities.Collect | SimpleSimilarities/simple_similarities.py:37-39 | a failed read failed on one of its lines, with that line's error |
| SimpleSimilarities.CollectFails | SimpleSimilarities/simple_similarities.py:37-39 | the read fails exactly when some line fails |
| SimpleSimilarities.CollectLastWins | SimpleSimilarities/simple_similarities.py:39 | a key is in the result exactly when some line has it, and its value is that of the last such line |
| SimpleSimilarities.CollectPrefixFails | SimpleSimilarities/simple_similarities.py:37-39 | once a line fails, later lines do not change the outcome |
| SimpleSimilarities.TreePositions | SimpleSimilarities/simple_similarities.py:34-40 | the only error is IndexError |
| SimpleSimilarities.TreePositionsFails | SimpleSimilarities/simple_similarities.py:34-40 | reading the file fails exactly when one of its lines fails |
| SimpleSimilarities.TreePositionsLastWins | SimpleSimilarities/simple_similarities.py:39 | a descriptor is mapped exactly when some line starts with it, to the categories of the last such line |
| SimpleSimilarities.ReadTreePositions | SimpleSimilarities/simple_similarities.py:34-40 | the loop over the lines computes the tree-position map |
| SimpleSimilarities.Emissions | SimpleSimilarities/simple_similarities.py:124-131 | at most one line per visited pair |
| SimpleSimilarities.ZerosBalance | SimpleSimilarities/simple_similarities.py:128-132 | the pairs not written plus the lines written make up all the pairs visited |
| SimpleSimilarities.EmissionsMembers | SimpleSimilarities/simple_similarities.py:124-129 | a line is written exactly for a visited pair whose filtered descriptor sets meet, and carries that pair's similarity |
| SimpleSimilarities.EmissionsOnce | SimpleSimilarities/simple_similarities.py:90-124 | distinct pairs give distinct lines |
| SimpleSimilarities.EmitPairs | SimpleSimilarities/simple_similarities.py:124-132 | the pair loop writes exactly the emitted lines, and its counters are the pairs without a line and all pairs |
| SimpleSimilarities.ComputeCombined | SimpleSimilarities/simple_similarities.py:81-95 | an unknown measure key is a KeyError; otherwise the file named after the folder, modifier and measure gets the combined lines |
| SimpleSimilarities.CombinedLines | SimpleSimilarities/simple_similarities.py:85-95 | each line is a pair `d1 < d2` of objects whose filtered descriptor sets meet, with their similarity, and no pair twice |
| SimpleSimilarities.ComputePerOntology | SimpleSimilarities/simple_similarities.py:97-132 | an unknown key is a KeyError; otherwise one run per ontology letter, in the order of the ontology table |
| SimpleSimilarities.ComputeOntology | SimpleSimilarities/simple_similarities.py:114-132 | one ontology's run: its file name, and the lines, zero count and total of the pairs of the sorted objects that have a descriptor in it |
| SimpleSimilarities.PerOntologyCounts | SimpleSimilarities/simple_similarities.py:119-132 | per ontology, `zero` plus the lines written is `total`, and `total` is `n(n-1)/2` for the `n` objects with a descriptor in that ontology |
| Mim2Gene.StripAll | BuildBenchmark/ppi/MIM2gene.py:58 | every synonym stripped, in order |
| Mim2Gene.GenenameRow | BuildBenchmark/ppi/MIM2gene.py:50-58 | a row with fewer than three tab-separated columns is an IndexError; a row whose stripped third column is empty is skipped; otherwise that UniProt id gets the stripped symbol, then the stripped comma-separated synonyms when the synonym column is non-empty |
| Mim2Gene.GenenameRows | BuildBenchmark/ppi/MIM2gene.py:49-58 | the rows read one by one |
| Mim2Gene.Genenames | BuildBenchmark/ppi/MIM2gene.py:46-59 | the only error is IndexError |
| Mim2Gene.GenenamesFails | BuildBenchmark/ppi/MIM2gene.py:50-53 | reading the table fails exactly when some row has fewer than three columns |
| Mim2Gene.GenenamesKeys | BuildBenchmark/ppi/MIM2gene.py:54-58 | the ids in the table are exactly the non-empty ids of some row, and each maps to a non-empty list |
| Mim2Gene.ReadGenenameRow | BuildBenchmark/ppi/MIM2gene.py:50-58 | one loop step agrees with the row function |
| Mim2Gene.ParseUniprotToGenename | BuildBenchmark/ppi/MIM2gene.py:46-59 | the loop over the rows builds exactly the gene-name table, or stops at the first short row |
| Mim2Gene.SqueezeRemovesSpaces | BuildBenchmark/ppi/MIM2gene.py:17 | squeezing a line removes all whitespace |
| Mim2Gene.IndexOfBefore | BuildBenchmark/ppi/MIM2gene.py:29-30 | `index` from a start position succeeds exactly when the character occurs there or later, at the first such position |
| Mim2Gene.UniprotOf | BuildBenchmark/ppi/MIM2gene.py:29-30 | the only error is the ValueError of `index` |
| Mim2Gene.UniprotOfBetween | BuildBenchmark/ppi/MIM2gene.py:29-30 | the id is the text between the first `(` and the first `)` after it, and reading fails exactly when either is missing |
| Mim2Gene.Uniprots | BuildBenchmark/ppi/MIM2gene.py:25-30 | the only error is ValueError |
| Mim2Gene.UniprotsPrefix | BuildBenchmark/ppi/MIM2gene.py:25-30 | the ids are those of the pieces before the first empty one, in order; reading fails exactly when one of those pieces is malformed |
| Mim2Gene.Expand | BuildBenchmark/ppi/MIM2gene.py:33-34 | expanding ids never shortens the list |
| Mim2Gene.ExpandMembers | BuildBenchmark/ppi/MIM2gene.py:33-34 | the expanded list holds the ids and every gene name listed for them |
| Mim2Gene.ParseMimLineHeader | BuildBenchmark/ppi/MIM2gene.py:18-21 | a squeezed line with exactly one `:` names its mim, the text before the `:`; any other line keeps the current mim |
| Mim2Gene.MimLines | BuildBenchmark/ppi/MIM2gene.py:15-21 | the lines read one by one |
| Mim2Gene.MimFoldFails | BuildBenchmark/ppi/MIM2gene.py:25-30 | the parse fails exactly when some line's gene list is malformed, with that line's error |
| Mim2Gene.MimFoldValid | BuildBenchmark/ppi/MIM2gene.py:32-34 | only valid mims get entries, and each entry is non-empty |
| Mim2Gene.MimToSpValid | BuildBenchmark/ppi/MIM2gene.py:32-34 | the mapping's keys are valid mims with non-empty lists |
| Mim2Gene.MimToSpFails | BuildBenchmark/ppi/MIM2gene.py:11-35 | parsing fails exactly when a line holds a malformed gene before its first empty piece, and then with ValueError |
| Mim2Gene.MimFoldPrefixFails | BuildBenchmark/ppi/MIM2gene.py:15-34 | once a line fails, later lines do not change the outcome |
| Mim2Gene.MimFoldStep | BuildBenchmark/ppi/MIM2gene.py:15-34 | one more line applies exactly that line's step |
| Mim2Gene.ReadUniprot | BuildBenchmark/ppi/MIM2gene.py:29-30 | the two `index` calls agree with the id function |
| Mim2Gene.UniprotsStep | BuildBenchmark/ppi/MIM2gene.py:25-30 | one more well-formed piece appends its id |
| Mim2Gene.AddedStep | BuildBenchmark/ppi/MIM2gene.py:32-34 | for a valid mim, one id appends that id and then its gene names; for any other mim nothing changes |
| Mim2Gene.ReadGenes | BuildBenchmark/ppi/MIM2gene.py:25-34 | the gene loop fails with ValueError exactly when the ids cannot be read, and otherwise appends the expanded ids to a valid mim's list |
| Mim2Gene.ReadMimLine | BuildBenchmark/ppi/MIM2gene.py:17-23 | the loop's mim and gene text after reading one line: a new mim on a header line, the same one otherwise |
| Mim2Gene.ParseMimToSp | BuildBenchmark/ppi/MIM2gene.py:11-35 | the loop over the lines fails exactly when the parse fails, with ValueError, and otherwise returns the parsed mapping |
| Mim2Gene.InteractionOf | BuildBenchmark/ppi/MIM2gene.py:68-105 | a row with fewer than four tab-separated columns lacks an interactor attribute (AttributeError); otherwise it pairs the first and fourth columns |
| Mim2Gene.PpiMembers | BuildBenchmark/ppi/MIM2gene.py:103-107 | `b` is listed for `a` exactly when some row pairs them, in either order |
| Mim2Gene.PpiSymmetric | BuildBenchmark/ppi/MIM2gene.py:103-107 | the interaction network is symmetric |
| Mim2Gene.PpiDegree | BuildBenchmark/ppi/MIM2gene.py:105-107 | each interactor list has one entry per row naming the gene, a self-interaction counted once |
| Mim2Gene.LoadInteractions | BuildBenchmark/ppi/MIM2gene.py:103-107 | the loop over the rows builds exactly the network |
| Mim2Gene.MinMax | BuildBenchmark/ppi/MIM2gene.py:124-125 | the written pair is the unordered pair, smaller first |
| Mim2Gene.InteractorsMembers | BuildBenchmark/ppi/MIM2gene.py:138-140 | the interactors of a disease are exactly the network neighbours of its genes |
| Mim2Gene.WrittenSymmetric | BuildBenchmark/ppi/MIM2gene.py:128-150 | whether a pair is written does not depend on the order of the diseases |
| Mim2Gene.InteractsSymmetric | BuildBenchmark/ppi/MIM2gene.py:138-150 | over a symmetric network, the genes of `b` interact with those of `a` exactly when those of `a` interact with those of `b` |
| Mim2Gene.Benchmark | BuildBenchmark/ppi/MIM2gene.py:122-150 | at most one record per pair |
| Mim2Gene.BenchmarkMembers | BuildBenchmark/ppi/MIM2gene.py:115-150 | a record `(a, b)` is written exactly when `a < b` are two diseases that share a protein (when shared proteins count) or, sharing none, whose proteins interact in either direction |
| Mim2Gene.CollectInteractors | BuildBenchmark/ppi/MIM2gene.py:138-140 | the loop collects exactly the interactors of the genes |
| Mim2Gene.DecidePair | BuildBenchmark/ppi/MIM2gene.py:128-150 | one pass of the pair loop writes the pair exactly when the rule accepts it |
| Mim2Gene.ProduceBenchmark | BuildBenchmark/ppi/MIM2gene.py:115-150 | the loop over all pairs writes exactly the benchmark records |
| PfamBenchmark.UpperIsUpperCase | BuildBenchmark/pfam/pfamBenchmark.py:38-53 | upper-casing leaves no lower-case letter |
| PfamBenchmark.PfamRow | BuildBenchmark/pfam/pfamBenchmark.py:35-38 | a row can fail only with IndexError |
| PfamBenchmark.PfamRowMeaning | BuildBenchmark/pfam/pfamBenchmark.py:35-38 | comment lines are the only ones skipped; another line fails exactly when it has fewer than seven tokens or its first token has no `\|`; otherwise it adds the upper-cased seventh token to the family set of the protein named after the first `\|` |
| PfamBenchmark.PfamRows | BuildBenchmark/pfam/pfamBenchmark.py:34-38 | the rows read one by one |
| PfamBenchmark.PfamScan | BuildBenchmark/pfam/pfamBenchmark.py:31-39 | the only error is IndexError |
| PfamBenchmark.PfamScanMembers | BuildBenchmark/pfam/pfamBenchmark.py:31-39 | reading fails exactly when some row fails; otherwise a protein has a family exactly when some row gives it, and every family is upper case |
| PfamBenchmark.ReadPfamRow | BuildBenchmark/pfam/pfamBenchmark.py:35-38 | one loop step agrees with the row function |
| PfamBenchmark.ReadPfamScan | BuildBenchmark/pfam/pfamBenchmark.py:31-39 | the loop over the rows builds exactly the family table |
| PfamBenchmark.MimToProtRow | BuildBenchmark/pfam/pfamBenchmark.py:45-46 | a line with fewer than two tokens is an IndexError; otherwise it appends its second token to its first token's list |
| PfamBenchmark.MimToProtRows | BuildBenchmark/pfam/pfamBenchmark.py:44-46 | the lines read one by one |
| PfamBenchmark.MimToProt | BuildBenchmark/pfam/pfamBenchmark.py:41-47 | the only error is IndexError |
| PfamBenchmark.MimToProtLists | BuildBenchmark/pfam/pfamBenchmark.py:41-47 | reading fails exactly when some line has fewer than two tokens; otherwise an omim's list is the second tokens of its lines, in file order, duplicates kept |
| PfamBenchmark.ReadMimToProt | BuildBenchmark/pfam/pfamBenchmark.py:41-47 | the loop over the lines builds exactly the omim-to-protein table |
| PfamBenchmark.Cleaned | BuildBenchmark/pfam/pfamBenchmark.py:53 | each line stripped and upper-cased |
| PfamBenchmark.ExclusionMembers | BuildBenchmark/pfam/pfamBenchmark.py:49-54 | a family is excluded exactly when some line, stripped and upper-cased, names it |
| PfamBenchmark.ExclusionEntries | BuildBenchmark/pfam/pfamBenchmark.py:53 | excluded families are upper case and stripped |
| PfamBenchmark.ReadExclusionList | BuildBenchmark/pfam/pfamBenchmark.py:49-54 | the loop builds exactly the exclusion set |
| PfamBenchmark.UpperKeepsStripped | BuildBenchmark/pfam/pfamBenchmark.py:53 | upper-casing a stripped string leaves it stripped |
| PfamBenchmark.FamiliesMembers | BuildBenchmark/pfam/pfamBenchmark.py:63-71 | a disease's families are exactly those of its proteins, a protein without families contributing none |
| PfamBenchmark.RelatedSymmetric | BuildBenchmark/pfam/pfamBenchmark.py:74-76 | the decision does not depend on the order of the two diseases |
| PfamBenchmark.RelatedWitness | BuildBenchmark/pfam/pfamBenchmark.py:61-76 | two diseases are related exactly when they have proteins sharing a family outside the exclusion list |
| PfamBenchmark.Benchmark | BuildBenchmark/pfam/pfamBenchmark.py:59-77 | at most one record per pair |
| PfamBenchmark.BenchmarkMembers | BuildBenchmark/pfam/pfamBenchmark.py:56-77 | over the sorted omims, `(a, b)` is written exactly when `a < b` are two related omims of the table |
| PfamBenchmark.BenchmarkOnce | BuildBenchmark/pfam/pfamBenchmark.py:59 | no record is written in both orders, and there are at most `n(n-1)/2` records for `n` omims |
| PfamBenchmark.CollectFamilies | BuildBenchmark/pfam/pfamBenchmark.py:63-65 | the loop collects exactly the families of the proteins |
| PfamBenchmark.ProduceBenchmark | BuildBenchmark/pfam/pfamBenchmark.py:56-77 | the pair loop writes exactly the benchmark records |
| BuildBenchmarks.DiseaseRow | BuildBenchmark/buildBenchmarks.py:40 | a line adds the integer it holds once stripped, and is a ValueError when it holds none |
| BuildBenchmarks.DiseasesWithProteinsMeaning | BuildBenchmark/buildBenchmarks.py:36-41 | reading fails with ValueError exactly when some line is not an integer; otherwise the ids are exactly the integers of the lines |
| BuildBenchmarks.ReadDiseasesWithProteins | BuildBenchmark/buildBenchmarks.py:36-41 | the loop over the lines builds exactly that set |
| BuildBenchmarks.IdsRow | BuildBenchmark/buildBenchmarks.py:52-54 | a line that is read adds two ids |
| BuildBenchmarks.IdsRowMeaning | BuildBenchmark/buildBenchmarks.py:52-54 | a line is read exactly when it has three fields, the first two integers, and adds those two; anything else is a ValueError |
| BuildBenchmarks.IdsInFileMeaning | BuildBenchmark/buildBenchmarks.py:43-55 | reading fails with ValueError exactly when some line is not such a matrix line; otherwise the ids are exactly those of the first two columns |
| BuildBenchmarks.ReadIdsRow | BuildBenchmark/buildBenchmarks.py:52-54 | one loop step agrees with the row function |
| BuildBenchmarks.GetIdsFromFile | BuildBenchmark/buildBenchmarks.py:43-55 | the loop builds exactly the id set |
| BuildBenchmarks.SubsetRow | BuildBenchmark/buildBenchmarks.py:61-66 | errors are ValueErrors, and a line that sets an entry sets it for an increasing pair of wanted ids |
| BuildBenchmarks.SubsetRowSets | BuildBenchmark/buildBenchmarks.py:61-66 | a line sets the entry of `(a, b)` exactly when it has three fields, its ids are `a` and `b` in either order, both wanted and different, and its value is that number |
| BuildBenchmarks.SubsetMeaning | BuildBenchmark/buildBenchmarks.py:57-67 | reading fails with ValueError exactly when some line does; otherwise a key is an increasing pair of wanted ids that some line sets, holding the value of the last line that sets it |
| BuildBenchmarks.ReadSubsetRow | BuildBenchmark/buildBenchmarks.py:61-66 | one loop step agrees with the row function |
| BuildBenchmarks.ExtractSubset | BuildBenchmark/buildBenchmarks.py:57-67 | the loop builds exactly the sub-matrix |
| BuildBenchmarks.IntersectionFails | BuildBenchmark/buildBenchmarks.py:86-87 | writing the matrix fails, with ValueError, exactly when reading either file fails |
| BuildBenchmarks.IntersectionRows | BuildBenchmark/buildBenchmarks.py:90-94 | each row holds an increasing pair of ids, the similarity of that pair in `file2` and then that in `file1`, 0.0 where a file lacks the pair |
| BuildBenchmarks.IntersectionCovers | BuildBenchmark/buildBenchmarks.py:90-91 | every increasing pair of ids has a row |
| BuildBenchmarks.IntersectionOrder | BuildBenchmark/buildBenchmarks.py:90-91 | the rows come in increasing order of their pairs, so none repeats, and there are `n(n-1)/2` of them for `n` ids |
| BuildBenchmarks.IntersectionMatrix | BuildBenchmark/buildBenchmarks.py:70-94 | the rows `print_intersection_matrix` writes; `BuildBenchmarks.IntersectionFails`, `BuildBenchmarks.IntersectionRows`, `BuildBenchmarks.IntersectionCovers` and `BuildBenchmarks.IntersectionOrder` state its errors and rows |
| BuildBenchmarks.RowsOf | BuildBenchmark/buildBenchmarks.py:91-94 | the loop over the pairs writes one row per pair, in the pairs' order, holding the pair, its value in the similarity map (0.0 when absent) and its value in the ground-truth map (0.0 when absent) |
| BuildBenchmarks.PrintIntersectionMatrix | BuildBenchmark/buildBenchmarks.py:70-94 | the loop over the pairs produces exactly the intersection rows |
| BuildBenchmarks.BuiltIds | BuildBenchmark/buildBenchmarks.py:122-129 | every row pairs two diseases that occur in the first two columns of the similarity file and both have proteins |
| BuildBenchmarks.Built | BuildBenchmark/buildBenchmarks.py:121-129 | the rows the script writes, over the ids of the similarity file that have proteins; `BuildBenchmarks.BuiltIds` states which ids its rows pair |
| BuildBenchmarks.BuildBenchmark | BuildBenchmark/buildBenchmarks.py:122-129 | the script produces exactly the intersection matrix of the two files over the testable ids |
| FilterBenchmarks.MappingRow | BuildBenchmark/filterBenchmarks.py:36-42 | a row can fail only with IndexError, and adds at most one protein |
| FilterBenchmarks.MappingRowMeaning | BuildBenchmark/filterBenchmarks.py:36-42 | a row adds protein `x` exactly when it is no comment, has at least seven tokens, its upper-cased seventh token is not an invalid family, and `x` is the second `\|` field of its first token |
| FilterBenchmarks.UniprotPfamMappingMeaning | BuildBenchmark/filterBenchmarks.py:31-43 | reading fails with IndexError exactly when some row fails; otherwise the valid proteins are exactly those some row adds |
| FilterBenchmarks.ReadMappingRow | BuildBenchmark/filterBenchmarks.py:36-42 | one loop step agrees with the row function |
| FilterBenchmarks.ReadUniprotPfamMapping | BuildBenchmark/filterBenchmarks.py:31-43 | the loop builds exactly the valid-protein set |
| FilterBenchmarks.StrippedLines | BuildBenchmark/filterBenchmarks.py:50 | each line stripped |
| FilterBenchmarks.InvalidPfamMembers | BuildBenchmark/filterBenchmarks.py:46-51 | a family is invalid exactly when some stripped line names it |
| FilterBenchmarks.ReadInvalidPfam | BuildBenchmark/filterBenchmarks.py:46-51 | the loop builds exactly the invalid-family set |
| FilterBenchmarks.EntityRow | BuildBenchmark/filterBenchmarks.py:58-59 | a line without exactly two tokens is a ValueError; otherwise it adds its second token to its first token's set |
| FilterBenchmarks.OmimToEntityMeaning | BuildBenchmark/filterBenchmarks.py:54-60 | reading fails with ValueError exactly when some line does not have two tokens; otherwise an omim is mapped to an entity exactly when some line pairs the two |
| FilterBenchmarks.ReadOmimToEntity | BuildBenchmark/filterBenchmarks.py:54-60 | the loop builds exactly the omim-to-entity table |
| FilterBenchmarks.KeptSymmetric | BuildBenchmark/filterBenchmarks.py:74-82 | whether a line is kept does not depend on the order of its two diseases |
| FilterBenchmarks.FilterRow | BuildBenchmark/filterBenchmarks.py:70-83 | a line that is not four tokens is a ValueError; otherwise it is copied exactly when it passes the test: sharing no protein without a valid-protein set, and with one, both diseases having a valid protein and sharing none |
| FilterBenchmarks.FilterRowAsWritten | BuildBenchmark/filterBenchmarks.py:70-83 | a line of the table as the code is written, the Pfam branch raising TypeError where it would keep the line; `FilterBenchmarks.FilterRowDiscrepancy` states where it differs from `FilterBenchmarks.FilterRow` |
| FilterBenchmarks.FilterRowCopies | BuildBenchmark/filterBenchmarks.py:63-76 | a copied line reproduces the input's four fields |
| FilterBenchmarks.FilterRowDiscrepancy | BuildBenchmark/filterBenchmarks.py:80-83 | the code as written differs from the intended filter exactly on the lines the Pfam branch keeps, where it raises a TypeError instead of copying them |
| FilterBenchmarks.FilteredAsWrittenPfamWritesNothing | BuildBenchmark/filterBenchmarks.py:80-83 | as written, the Pfam branch never writes a line |
| FilterBenchmarks.FilteredMeaning | BuildBenchmark/filterBenchmarks.py:66-83 | filtering fails with ValueError exactly when some line is not four tokens; otherwise the output holds exactly the copies of the kept lines |
| FilterBenchmarks.FilterLine | BuildBenchmark/filterBenchmarks.py:70-83 | one loop step agrees with the intended row function |
| FilterBenchmarks.FilterFile | BuildBenchmark/filterBenchmarks.py:66-83 | the loop writes exactly the filtered lines |
| FilterBenchmarks.FilteringAsWrittenIgnoresPfam | BuildBenchmark/filterBenchmarks.py:121-131 | as written, a Pfam table that reads without error never changes the output |
| FilterBenchmarks.FilteringAsWritten | BuildBenchmark/filterBenchmarks.py:121-131 | the script as written, filtering with the never-assigned empty Pfam protein set; `FilterBenchmarks.FilteringAsWrittenIgnoresPfam` states that the Pfam table then never changes the output |
| FilterBenchmarks.FilteringWithPfam | BuildBenchmark/filterBenchmarks.py:123-131 | with a Pfam table that leaves some protein valid, every line written pairs two diseases that each have a valid protein and share none |
| FilterBenchmarks.Filtering | BuildBenchmark/filterBenchmarks.py:121-131 | the script filtering with the proteins the Pfam table leaves valid; `FilterBenchmarks.FilteringWithPfam` states what every written line then satisfies |
| FilterBenchmarks.Filter | BuildBenchmark/filterBenchmarks.py:117-131 | the script reads the tables, the Pfam ones when given, and filters with the valid proteins |
| Mim2Mesh.MappingRow | MIM2MeSH/MIM2MESH.py:11-12 | a blank line is an IndexError; any other line maps its first token to the later ones, all of them tokens |
| Mim2Mesh.MappingFileMeaning | MIM2MeSH/MIM2MESH.py:7-13 | reading fails with IndexError exactly when some line is blank; otherwise a key is present exactly when some line starts with it, maps to the later tokens of the last such line, and keys keep the order of their first line |
| Mim2Mesh.MappingFile | MIM2MeSH/MIM2MESH.py:7-13 | the dict `readMappingFile` returns; `Mim2Mesh.MappingFileMeaning` states its errors, keys and values |
| Mim2Mesh.ReadMappingFile | MIM2MeSH/MIM2MESH.py:7-13 | the loop builds exactly that dict, keys in insertion order |
| Mim2Mesh.MeshesAppend | MIM2MeSH/MIM2MESH.py:19-20 | the MeSH ids of two publication lists are those of each, concatenated |
| Mim2Mesh.MeshesMembers | MIM2MeSH/MIM2MESH.py:19-20 | the MeSH ids gathered for a mim are exactly those of its publications, an unknown publication giving none |
| Mim2Mesh.LineSplits | MIM2MeSH/MIM2MESH.py:18-22 | when the mim and every MeSH id are tokens, the tab-joined line splits back into the mim and its MeSH ids |
| Mim2Mesh.Mim2MeshSplits | MIM2MeSH/MIM2MESH.py:17-23 | each line written is a mim of the dict followed by that mim's MeSH ids, at least one of them |
| Mim2Mesh.Mim2MeshCovers | MIM2MeSH/MIM2MESH.py:17-23 | every mim with at least one MeSH id gets its line |
| Mim2Mesh.Mim2MeshOnce | MIM2MeSH/MIM2MESH.py:17-23 | over distinct mims, no two lines start with the same mim |
| Mim2Mesh.Mim2MeshLines | MIM2MeSH/MIM2MESH.py:15-23 | the lines `mim2mesh` writes; `Mim2Mesh.Mim2MeshSplits`, `Mim2Mesh.Mim2MeshCovers` and `Mim2Mesh.Mim2MeshOnce` state which lines they are |
| Mim2Mesh.CollectMeshes | MIM2MeSH/MIM2MESH.py:19-20 | the inner loop gathers exactly the MeSH ids of the publications, in order |
| Mim2Mesh.Mim2MeshMethod | MIM2MeSH/MIM2MESH.py:15-23 | the loop writes exactly the lines of the mims with MeSH ids, in the dict's key order |
| Mim2Mesh.MappingFileTokens | MIM2MeSH/MIM2MESH.py:11-12 | the dict read from a file has distinct keys, and its keys and values are tokens |
| Mim2Mesh.ScriptLines | MIM2MeSH/MIM2MESH.py:45-50 | every line the script writes is a mim of the first file followed by its MeSH ids, at least one, and no mim has two lines |
| Mim2Mesh.Script | MIM2MeSH/MIM2MESH.py:45-50 | the lines the script writes for its two files; `Mim2Mesh.ScriptLines` states what each is |
| Mim2Mesh.Run | MIM2MeSH/MIM2MESH.py:45-50 | the script reads both files and converts, failing exactly when a read fails |

## Left out

- File opening, reading and writing: files are given as their lines and outputs are records. Progress bars (`rich`, `progressbar`), `print` and the `__main__` argument checks are not modelled.
- Partial output: a script that raises part-way has already written some lines. The model returns only the error.
- Number rendering: `%f`, `%i` and `str()` of floats are not modelled; records carry the number.
- `float()`: in `BuildBenchmarks` it is a parameter that answers `None` where Python raises ValueError.
- `int()`: `Strings.ParseInt` accepts an optional sign and ASCII digits. The underscores and Unicode digits Python also accepts are not modelled.
- Whitespace and case: `Strings` treats only ASCII whitespace as blank and upper-cases only ASCII letters.
- Iteration orders of Python sets and plain dicts are parameters where the model takes them as lists: the keys of annotation dicts and `mimtosp.keys()`, and the common-ancestor list that `Measures.Resnik`, `Measures.Lin`, `Measures.Schlicker` and `Measures.Jiang` take. Insertion-ordered dicts that decide output order are modelled with their key order.
- `SemanticSimilarities.SemanticSimilarity.CommonAncestors`: fixes the order of the common-ancestor list as ascending node handle; the source's order is the iteration order of the set `common_ancestors` returns. That order decides which ancestor Resnik's measure picks when two share the smallest count (`ComputeSimilarities/similarity_measures.py:78`, the first minimum), and so the ancestor reported for the pair.
- `SemanticSimilarities.SemanticSimilarity.IdsFor`: fixes the order of a set's iteration as ascending descriptor index; the source's order is that of the set.
- Logarithms and exponentials: `np.log10` and `np.exp` are given functions. The properties proved hold for any such functions.
- Floating point: all arithmetic is exact `real`. IEEE rounding, `nan` and infinities are not modelled. numpy's `nan` for the mean or median of an empty array is reported as ZeroDivisionError.
- The ISM random walk `__walk` (`ComputeSimilarities/similarity_measures.py:252-263`): a floating-point iteration with a norm test and no iteration bound. `IsmMeasure.ISM.Ism` takes the walk's result W as a parameter.
- `IsmMeasure.Combine`: numpy broadcasting is modelled for two-dimensional shapes only. An HSM without rows is taken as 0 by 0, so a 0 by k HSM (which numpy broadcasts against a 1 by 1 RWC to 0 by k) is not represented.
- `IsmMeasure.ISM.PColumns`, `IsmMeasure.PColumnMass`, `IsmMeasure.NuIsKidCount`: require that no two children of the node carry the same identifier. The thesaurus keys its nodes by identifier, but the model's node list does not rule out two nodes with one identifier; with them `children` lists that descriptor twice, N_u counts it twice and P's cell is written once.
- The per-pair statistics file of the term-wise fill (`ComputeSimilarities/semsim.py:106-117`), `printMappingFile` and `printNameIdMapping`: output-only.
- `MeshParser`: the source adds each record to the thesaurus as soon as it is read; the model reads all records and then adds them. On success the thesaurus is the same; on an IndexError part-way, the nodes already added are not modelled.
- The HINT column layout of `Interaction` (`BuildBenchmark/ppi/MIM2gene.py:66`): main only reads HPRD files.
- `parse_validOmim` (`BuildBenchmark/ppi/MIM2gene.py:38-43`): the valid OMIM ids are given as a set.
- `read_mapping` (`SimpleSimilarities/simple_similarities.py:43-49`): the mapping is given as a map. `Mim2Mesh.MappingFile` models the same reader shape.
- The `line[0] == ""` tests (`BuildBenchmark/pfam/pfamBenchmark.py:35`, `BuildBenchmark/filterBenchmarks.py:36`) can never hold and are not modelled.
- `defaultdict` lookups that only insert an empty entry are not modelled where no output depends on them. Where an output does depend on them, as with the annotation accessors, the insertion is modelled.
- `readDiseasesWithProteins` (`BuildBenchmark/buildBenchmarks.py:36-41`) parses one integer per line. The help text describes a two-column protein file, which it would reject with ValueError. The model follows the code.
- The network clients (`PubMed2MeSH/Pubmed_query.py`, `PubMed2MeSH/PubMed_query_new.py`, `MIM2Pubmed/OMIM_query.py`) and the driver `ComputeSimilarities/compute_combined_similarity.py` are not part of this model.

## Findings

| source | as written | input that shows it | evidently intended | confidence | as-written member | corrected member |
|---|---|---|---|---|---|---|
| BuildBenchmark/filterBenchmarks.py:83 | the Pfam branch calls `writeLine(omim1, omim2, disim, molsim)` without the file argument, a TypeError | a non-empty `valid_uniprot` and a four-field line whose two diseases each have a valid protein and share none (`FilterBenchmarks.FilterRowDiscrepancy`, `FilterBenchmarks.FilteredAsWrittenPfamWritesNothing`) | the line is written to the output file, as in the other branch | high; not executed | FilterBenchmarks.FilterRowAsWritten | FilterBenchmarks.FilterRow |
| BuildBenchmark/filterBenchmarks.py:121-131 | `valid_uniprots` is read from the Pfam table, but `filterFile` gets `valid_uniprots_pfam`, which is never assigned and stays empty | any Pfam table that reads without error (`FilterBenchmarks.FilteringAsWrittenIgnoresPfam`) | the proteins valid under the Pfam table restrict the filter (`FilterBenchmarks.FilteringWithPfam`) | high; not executed | FilterBenchmarks.FilteringAsWritten | FilterBenchmarks.Filtering |
