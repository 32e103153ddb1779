# gwas_wrapper result shaping, modelled in Dafny

`gwas_wrapper` is a small Python 2 client for the NHGRI-EBI GWAS Catalog
search API. This project models its result-shaping logic and proves
properties of it. The logic is in the `GWAS` class, in three parts:

- **`search`** turns a free-text query and keyword overrides into nine
  `(name, value)` request parameters. Their order is fixed, and every
  override has a default (`GwasSearch.QueryParams`).
- **`snp_list`** walks `response.docs` and builds one `(rsID, risk allele)`
  pair per record (`GwasSnpList.SnpList`). It is specified by the fold
  `GwasSnpList.SnpPairs`.
- **`parse_snps`** builds the nested map rsID -> risk allele -> projection
  (`GwasParseSnps.ParseSnps`). It is specified by the fold
  `GwasParseSnps.ParseFold`. In mode `'all'` the projection is the whole
  record. In mode `'custom'` it holds only the requested attributes, with
  `"n/a"` for absent ones. Any other mode writes no leaf.

Both walkers get a record's key from one shared function, `GwasKeys.KeyOf`.
The allele is `strongestAllele[0].split('-')[1]`. `TextSplit.Split` models
Python's `str.split` with an explicit separator, and it is proved to be the
unique inverse of `Join` on separator-free pieces. An `IndexError` on
either index falls back to `"n/a"`. Anything the `except` clause does not
catch is returned as an error value, `PyCall.Result.Err`:

- a missing `rsId` gives `KeyError`;
- a missing `strongestAllele` gives `KeyError`;
- an empty `rsId` gives `IndexError`, because the `except` branch indexes
  `rsId` again.

Decoded JSON is a `Json.Value`. Only strings, integers and arrays of
strings are given structure. Every other value, such as the float
`orPerCopyNum`, is an opaque `Other`.

Behaviour of the code worth knowing:

- `"rs123-context-T"` yields the allele `"context"`. The split cuts at
  every `-` and the code takes piece 1, not the last piece
  (`GwasKeys.AlleleMiddlePiece`).
- A record without a `strongestAllele` key raises `KeyError`. Only an
  `IndexError` falls back to `"n/a"`.
- `search` sends the request itself and returns the decoded JSON. Only the
  parameter tuple it builds is modelled.

Modules: `Json` (decoded values), `PyCall` (exceptions, optional keyword
arguments), `TextSplit` (`str.split`), `GwasSearch`,
`GwasKeys`, `GwasSnpList`, `GwasParseSnps`.

## Model

| member | source | states |
|---|---|---|
| `TextSplit.Split` | gwas_wrapper/gwas_wrapper.py:91 | `str.split('-')` always returns at least one piece |
| `TextSplit.SplitJoin` | gwas_wrapper/gwas_wrapper.py:91 | joining the pieces with the separator restores the string, and no piece contains the separator |
| `TextSplit.JoinSplit` | gwas_wrapper/gwas_wrapper.py:91 | the split is the only separator-free list of pieces that joins back to the string |
| `TextSplit.SplitFree` | gwas_wrapper/gwas_wrapper.py:91 | a string without the separator splits into itself alone |
| `TextSplit.SplitAfterFree` | gwas_wrapper/gwas_wrapper.py:91 | the piece before the first separator comes off the front of the split |
| `TextSplit.SplitCount` | gwas_wrapper/gwas_wrapper.py:91 | the number of pieces is the number of separators plus one |
| `TextSplit.SplitHasSecond` | gwas_wrapper/gwas_wrapper.py:91-93 | a piece at index 1 exists exactly when the string contains `-` |
| `GwasSearch.QueryParams` | gwas_wrapper/gwas_wrapper.py:55-65 | nine pairs named q, max, facet, pvalfilter, orfilter, betafilter, datefilter, sort, asc in that order; q holds the query; each later slot holds its keyword's value when passed, else its default |
| `GwasSearch.NoOverrides` | gwas_wrapper/gwas_wrapper.py:56-64 | with no keywords: max=600, facet='association', pvalfilter='5e-8', the other five '' |
| `GwasSearch.OverrideOwnSlot` | gwas_wrapper/gwas_wrapper.py:57-64 | passing one recognised keyword sets its own slot to the value and leaves the other eight pairs unchanged |
| `GwasSearch.UnrecognisedIgnored` | gwas_wrapper/gwas_wrapper.py:55-65 | an unrecognised keyword name has no effect on the parameters |
| `GwasSearch.OnlyRecognisedMatter` | gwas_wrapper/gwas_wrapper.py:55-65 | the parameters depend only on the keywords restricted to the eight override names |
| `GwasKeys.AlleleFallback` | gwas_wrapper/gwas_wrapper.py:89-93 | the allele is 'n/a' when `strongestAllele` is empty or its first string has no '-'; otherwise it is piece 1 of the split |
| `GwasKeys.AlleleIsSecondPiece` | gwas_wrapper/gwas_wrapper.py:91 | for `x-y` or `x-y-...`, with no '-' in x or y, the allele is y: the text between the first and the second '-' |
| `GwasKeys.AlleleMiddlePiece` | gwas_wrapper/gwas_wrapper.py:91 | "rs123-context-T" gives "context", not the last piece |
| `GwasKeys.AlleleSecondOfTwo` | gwas_wrapper/gwas_wrapper.py:91 | "ctx-A" gives "A" |
| `GwasKeys.AlleleTrailingDash` | gwas_wrapper/gwas_wrapper.py:91 | "rs1-" gives the empty allele, not 'n/a' |
| `GwasKeys.AlleleNoDash` | gwas_wrapper/gwas_wrapper.py:92-93 | a string without '-' and an empty list both give 'n/a' |
| `GwasKeys.KeyOf` | gwas_wrapper/gwas_wrapper.py:89-93 | the key is `(rsId[0], allele)` exactly when rsId is present and non-empty and strongestAllele is present; otherwise KeyError('rsId'), IndexError or KeyError('strongestAllele'), in that order of checking |
| `GwasSnpList.SnpPairs` | gwas_wrapper/gwas_wrapper.py:87-95 | a successful walk returns exactly one pair per document |
| `GwasSnpList.ErrorSticks` | gwas_wrapper/gwas_wrapper.py:88-93 | once a document raises, no later document changes the outcome |
| `GwasSnpList.SnpList` | gwas_wrapper/gwas_wrapper.py:79-95 | the appending loop returns exactly the fold `SnpPairs` of the documents |
| `GwasSnpList.SnpPairsOk` | gwas_wrapper/gwas_wrapper.py:87-95 | the walk succeeds exactly when every document is keyed; then pair i is document i's key, in order, duplicates kept |
| `GwasSnpList.SnpPairsContent` | gwas_wrapper/gwas_wrapper.py:90-93 | pair i is document i's `rsId[0]` with its allele |
| `GwasSnpList.SnpPairsFirstError` | gwas_wrapper/gwas_wrapper.py:88-93 | a failing walk returns the error of the first document that is not keyed |
| `GwasSnpList.TwoRecordsExample` | gwas_wrapper/gwas_wrapper.py:87-95 | two records rs1 / "ctx-A" give [("rs1","A"), ("rs1","A")] |
| `GwasParseSnps.CustomLeafSpec` | gwas_wrapper/gwas_wrapper.py:155-162 | a custom leaf's keys are exactly the requested attributes, each holding the record's value or 'n/a' |
| `GwasParseSnps.Insert` | gwas_wrapper/gwas_wrapper.py:146-162 | one record adds its rsID to the outer keys; in a writing mode it sets its own entry to its projection; in other modes it writes no leaf; every other entry is unchanged and none is added |
| `GwasParseSnps.ErrorSticks` | gwas_wrapper/gwas_wrapper.py:139-144 | once a document raises, no later document changes the outcome |
| `GwasParseSnps.Store` | gwas_wrapper/gwas_wrapper.py:146-162 | the in-place dictionary updates of one pass: creating the outer entry, storing the record, or resetting the leaf and filling it attribute by attribute, give exactly `Insert` |
| `GwasParseSnps.ParseSnps` | gwas_wrapper/gwas_wrapper.py:128-164 | the loop returns exactly the fold `ParseFold`, with parse_type defaulting to 'all' and custom_attr to ['orPerCopyNum','riskFrequency'] |
| `GwasParseSnps.ParseFailsLikeSnpList` | gwas_wrapper/gwas_wrapper.py:139-144 | parse_snps succeeds exactly when snp_list does, and otherwise fails with the same error |
| `GwasParseSnps.ParseShape` | gwas_wrapper/gwas_wrapper.py:139-162 | the outer keys are the rsIDs of all documents, in every mode; in 'all' and 'custom' the (rsID, allele) entries are exactly snp_list's pairs; in any other mode every inner map is empty |
| `GwasParseSnps.LastWins` | gwas_wrapper/gwas_wrapper.py:151-162 | the entry for a key holds the projection of the last document with that key |
| `GwasParseSnps.LeafOrigin` | gwas_wrapper/gwas_wrapper.py:146-162 | every entry is the projection of the last document that has its key |
| `GwasParseSnps.CustomLeaves` | gwas_wrapper/gwas_wrapper.py:154-162 | in 'custom' mode every leaf has exactly the requested attributes as keys, with the values of the last document with that key or 'n/a'; no attribute of an earlier duplicate survives |
| `GwasParseSnps.LaterRecordFrame` | gwas_wrapper/gwas_wrapper.py:146-162 | appending a record keeps every other (rsID, allele) entry and adds no other entry |
| `GwasParseSnps.AllModeDuplicate` | gwas_wrapper/gwas_wrapper.py:151-152 | in 'all' mode, two records with the same key leave the inner map holding only the second record, unchanged |

## Left out

- `__init__` (lines 25-29) only sets the base and search URLs, which are used solely by the HTTP request. It is not modelled.
- The envelope lookup `raw_results["response"]["docs"]` (lines 88 and 139) is not modelled, nor is the `KeyError` it raises on a malformed response. The models take the list `response.docs` directly.
- The HTTP request in `search` (lines 71-77) is not modelled: `urlencode`, the URL string, `urlopen`, `read` and `json.loads` are network I/O and library calls. Only the parameter tuple is modelled.
- The UTF-8 `.encode` of unicode parameter values (lines 67-69), the `byteify` helper (lines 166-178) and the `str(...)` coercions (lines 141-142) are not modelled. All text is taken as already-decoded strings, on which these are identities.
- Records whose `rsId` or `strongestAllele` is not an array of strings are not modelled (Python would index a string or raise `TypeError`). The callers require the catalog's shape through `GwasKeys.AllWellTyped`.
- `GwasSearch.QueryParams` takes the keyword arguments as a map, so the order in which they were passed cannot matter. Removing the popped keys from `kwargs` is not modelled: it changes only the call's private copy.
- Python 2 dictionaries have no defined order, so the models of `parse_snps` have none either.
- `GwasParseSnps.Store` writes into the nested map by reassigning map values. There is no aliasing to model: the leaf it fills is fresh, and in mode 'all' the stored record is never changed later.
- Batch search and term-frequency aggregation are not modelled, because the source files contain no such code.
- `setup.py` is packaging metadata and is not modelled.
