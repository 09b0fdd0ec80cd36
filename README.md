# Gene-identifier bookkeeping of cellmaps_downloader

This project models the gene-identifier bookkeeping in
`cellmaps_downloader/gene.py` and proves properties about it. There are three
parts: the identifier splitter and accumulator
`GeneNodeAttributeGenerator.add_geneids_to_set`, the edge-list universe
builder `APMSGeneNodeAttributeGenerator._get_unique_genelist_from_edgelist`,
and the lookup-result folder
`APMSGeneNodeAttributeGenerator._get_query_symbol_dicts`.

Files and modules:

- `wrappers.dfy` (`Wrappers`) — `Option`, standing for Python's `None`.
- `gene_id_split.dfy` (`GeneIdSplit`) — `re.split('\W*,\W*', geneid)` as a pure function.
  - A match starts where the maximal run of non-word characters contains a comma, and it covers that whole run.
  - `IsSplitOf` characterises the split independently: the pieces put back together give the input, and every separator is a maximal non-word run containing a comma.
  - `Split` is proved to satisfy it, and it is the only split that does.
- `gene_spec.dfy` (`GeneSpec`) — the input records, reference definitions of what the loops build, and lemmas about them.
  - The input records are the edge-list row and the lookup result, whose `ensembl` field is absent, a single hit or a list of hits.
  - Each loop's output is defined as a fold over the whole input, and the lemmas state the fold's meaning.
- `gene.dfy` (`Gene`) — the source's classes, as imperative Dafny.
  - The caller-owned `set` and `dict` that `add_geneids_to_set` updates in place are heap objects, `GeneSet` and `AmbiguousGeneDict`. A `None` argument is a null reference.
  - The loops are `for` loops whose invariants tie the state to the folds of `GeneSpec`.

## Model

| member | source | states |
|---|---|---|
| GeneIdSplit.RunEnd | cellmaps_downloader/gene.py:68 | The greedy `\W*` run from a position: every character in it is a non-word character, and it stops at a word character or the end. |
| GeneIdSplit.FindMatch | cellmaps_downloader/gene.py:68 | The leftmost position where the pattern matches, or None exactly when it matches nowhere. |
| GeneIdSplit.Split | cellmaps_downloader/gene.py:68 | The split is never empty, no token contains a comma, and the first token is a prefix of the identifier. |
| GeneIdSplit.SplitIsSplitOf | cellmaps_downloader/gene.py:68 | Tokens and separators interleave back into the input. Each separator is a maximal non-word run holding a comma. Inner tokens are non-empty and bounded by word characters. |
| GeneIdSplit.SplitUnique | cellmaps_downloader/gene.py:68 | Any token/separator decomposition with those properties is the one `Split` returns, together with its separators. |
| GeneIdSplit.SplitWithoutComma | cellmaps_downloader/gene.py:68 | An identifier without a comma splits into exactly itself. |
| GeneIdSplit.MultipleTokensIffComma | cellmaps_downloader/gene.py:68-71 | There is more than one token exactly when the identifier contains a comma, so the dict branch runs exactly for comma-joined identifiers. |
| GeneSpec.RecordAmbiguity | cellmaps_downloader/gene.py:70-73 | With one token or no identifier the dict is unchanged. Otherwise the new keys are the old ones plus the tokens, each token maps to the raw identifier, and every other key keeps its value. |
| GeneSpec.EndpointIds | cellmaps_downloader/gene.py:126-132 | The identifiers visited are GeneID1 and then GeneID2 of each row, in row order, two per row. |
| GeneSpec.RowStep | cellmaps_downloader/gene.py:126-132 | One more row adds the tokens of its GeneID1 and then of its GeneID2 to the set, and records both in the dict in that order. |
| GeneSpec.GenesOfMembers | cellmaps_downloader/gene.py:123-133 | A gene is collected exactly when it is a token of some visited identifier (both directions). |
| GeneSpec.AmbiguityOfKeys | cellmaps_downloader/gene.py:124-133 | A key is in the ambiguity dict exactly when some comma-joined identifier has it as a token (both directions). |
| GeneSpec.AmbiguityOfLastWriter | cellmaps_downloader/gene.py:126-132 | A token's entry is the raw string of the last ambiguous identifier that produced it: a later row overwrites an earlier one. |
| GeneSpec.AmbiguityValuesAreAmbiguous | cellmaps_downloader/gene.py:70-73 | Every recorded value is one of the visited identifiers, contains a comma, and has its key among its tokens. |
| GeneSpec.AmbiguityKeysAreGenes | cellmaps_downloader/gene.py:69-73 | Every key of the ambiguity dict is also in the gene set. |
| GeneSpec.QueryDictsStep | cellmaps_downloader/gene.py:159-171 | Result `i` overwrites `query->symbol` and `symbol->query`. It appends its suffix to the symbol's Ensembl entry, starting from `ensembl:` if the symbol is new. |
| GeneSpec.AbsentAddsOnlyPrefix | cellmaps_downloader/gene.py:163-166 | A result without `ensembl` adds only the `ensembl:` entry of a new symbol and changes no existing entry. |
| GeneSpec.QuerySymbolOfKeys | cellmaps_downloader/gene.py:159 | The keys of `query_symbol_dict` are exactly the queries of the results. |
| GeneSpec.QuerySymbolOfLast | cellmaps_downloader/gene.py:159 | For the last result with a given query, the dict holds that result's symbol. |
| GeneSpec.SymbolQueryOfKeys | cellmaps_downloader/gene.py:160 | The keys of `symbol_query_dict` are exactly the symbols of the results. |
| GeneSpec.SymbolQueryOfLast | cellmaps_downloader/gene.py:160 | For the last result with a given symbol, the dict holds that result's query. |
| GeneSpec.SymbolEnsemblOfKeys | cellmaps_downloader/gene.py:162-164 | The keys of `symbol_ensembl_dict` are exactly the symbols of the results. |
| GeneSpec.SymbolEnsemblOfValues | cellmaps_downloader/gene.py:162-171 | Each Ensembl entry is `ensembl:` followed by the suffixes of all results with that symbol, in result order. A repeated symbol appends and never resets. |
| GeneSpec.QueryDicts | cellmaps_downloader/gene.py:150-172 | All key sets and last-writer and Ensembl-content facts of the three dicts together. |
| GeneSpec.LastWithQuerySnoc | cellmaps_downloader/gene.py:159 | A result that is last with its query in a longer list is last in the shorter one, and the new result has another query. |
| GeneSpec.LastWithSymbolSnoc | cellmaps_downloader/gene.py:160 | A result that is last with its symbol in a longer list is last in the shorter one, and the new result has another symbol. |
| GeneSpec.EnsemblForUnseen | cellmaps_downloader/gene.py:162-164 | A symbol that was not seen yet has accumulated no Ensembl text, so its entry starts as the bare prefix. |
| GeneSpec.EnsemblForAppend | cellmaps_downloader/gene.py:162-171 | Text accumulated over two batches of results is the concatenation of the texts of each batch. |
| GeneSpec.EnsemblForWithoutHits | cellmaps_downloader/gene.py:165-166 | A symbol none of whose results has `ensembl` accumulates no text after the prefix. |
| GeneSpec.TerminatedSnoc | cellmaps_downloader/gene.py:167-169 | The multi-hit loop appends each gene followed by `;`, one per iteration. |
| GeneSpec.TerminatedRoundTrip | cellmaps_downloader/gene.py:167-169 | The genes of a multi-valued hit, none containing `;`, can be read back from the appended text in order. |
| GeneSpec.SinglesRunTogether | cellmaps_downloader/gene.py:170-171 | Two single hits for one symbol are appended with nothing between them. |
| Gene.GeneSet.constructor | cellmaps_downloader/gene.py:123 | A new gene set is empty. |
| Gene.AmbiguousGeneDict.constructor | cellmaps_downloader/gene.py:124 | A new ambiguity dict is empty. |
| Gene.ListOf | cellmaps_downloader/gene.py:133 | `list(gene_set)`: exactly the set's elements, each once, as many as the set has. |
| Gene.GeneNodeAttributeGenerator.AddGeneIdsToSet | cellmaps_downloader/gene.py:53-74 | Covers the None guards, the returned token list and the set union. The dict follows `RecordAmbiguity`, and nothing changes when the set is missing. |
| Gene.APMSGeneNodeAttributeGenerator.constructor | cellmaps_downloader/gene.py:92-100 | The edge-list and bait-list arguments are stored unchanged. |
| Gene.APMSGeneNodeAttributeGenerator.UniqueGenelistFromEdgelist | cellmaps_downloader/gene.py:117-133 | The genes are duplicate-free and exactly the tokens of every row's two identifiers. The dict is the fold of `RecordAmbiguity` over them. An empty edge list gives `([], {})`. |
| Gene.APMSGeneNodeAttributeGenerator.AddEnsembl | cellmaps_downloader/gene.py:163-171 | One result's update of the Ensembl dict: only its symbol's entry changes. The entry becomes its current text, or `ensembl:` for a new symbol, followed by the result's suffix (nothing when `ensembl` is absent). |
| Gene.APMSGeneNodeAttributeGenerator.AppendGenes | cellmaps_downloader/gene.py:167-169 | After the loop over a multi-valued hit, the symbol's entry has every gene with its `;` appended, in order, and every other entry is unchanged. |
| Gene.APMSGeneNodeAttributeGenerator.QuerySymbolDicts | cellmaps_downloader/gene.py:150-172 | The three dicts equal the folds of `GeneSpec`: keys are exactly the queries or symbols and the last writer wins. Ensembl entries are the prefix plus every suffix in order. |

## Left out

- `GeneQuery` and its `querymany` (cellmaps_downloader/gene.py:7-40) wrap the external `mygene` web service. Lookup results are an input sequence instead.
- The `genequery` constructor argument (cellmaps_downloader/gene.py:93, 100) is a client of that service. Its default builds a `mygene.MyGeneInfo()` client when the module is imported (cellmaps_downloader/gene.py:11). It is not stored in the model.
- `_querygenes` (cellmaps_downloader/gene.py:135-148) is a remote call, made through `self._querygenes.querymany`. That is an attribute of the bound method itself, so the call cannot succeed as written.
- `_get_edgelist` (cellmaps_downloader/gene.py:102-115) reads a tab-separated file. Edge rows are an input sequence instead.
- `get_gene_node_attributes` (cellmaps_downloader/gene.py:174-188) is unfinished: its last loop body is `pass` and it returns nothing.
- `ImageGeneNodeAttributeGenerator` (cellmaps_downloader/gene.py:77-85) has no logic.
- runner.py, cellmaps_downloadercmd.py and setup.py are a stub, argument parsing and packaging.
- The download logic that only the tests describe is not part of this model.
- GeneIdSplit.Split: word characters are ASCII letters, digits and `_`. Python's `\w` also accepts Unicode letters and digits.
- Gene.ListOf: the order of `list(set)` is left open. Only the elements and their count are stated.
- Gene.APMSGeneNodeAttributeGenerator.QuerySymbolDicts: requires every result to have a `symbol` and every list of hits to have more than one gene.
  - A missing symbol raises `KeyError`. A list of zero or one hits reaches `x['ensembl']['gene']` and raises `TypeError`.
  - Those exceptions are not modelled.
- Gene.APMSGeneNodeAttributeGenerator.UniqueGenelistFromEdgelist: `edgelist=None` raises `TypeError` in the source. The model takes a sequence, so it does not model that crash.
- Gene.APMSGeneNodeAttributeGenerator.QuerySymbolDicts: `query_res=None` raises `TypeError` in the source. The model takes a sequence, so it does not model that crash.
- `Single` stands for a hit dict with the one key `gene`, as `{'gene': g}`. The requested field `ensembl.gene` (cellmaps_downloader/gene.py:147) gives exactly that shape, and `len` of it is 1.
  - A hit dict with more keys would take the list branch and fail at `g['gene']`. That case is not modelled.
  - A hit without a `gene` key raises `KeyError`. That case is not modelled either.
- The dicts of `_get_query_symbol_dicts` are local to the call, so they are map-valued locals rather than heap objects.

## Ensembl text layout

The Ensembl entries follow the source's `+=` at cellmaps_downloader/gene.py:169 and 171 exactly, and the model keeps that layout on purpose.

- A list of hits appends every gene followed by `;`, so the entry ends with a trailing `;`.
- A single hit appends its gene with no `;`.
- Two single hits for one symbol therefore run together, as `ensembl:E1E2` (`GeneSpec.SinglesRunTogether`).
- A single hit followed by a list gives `ensembl:E1E2;E3;`.

This is not a `;`-joined list; it is what the code does as written.
