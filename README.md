# Vector store and GitHub URL rules, modelled in Dafny

This project models two parts of a browser client that feeds source files into a
local language model.

- **The vector store** (`src/lib/rag.ts`). It is an in-memory list of
  `(path, content, embedding)` records. `addDocument` upserts a record by path.
  `search` ranks the records by similarity to a query with a stable sort by
  descending score, then takes a prefix. `count` and `clear` round it off.
  The `VectorStore` class keeps these fields: `documents`, `baseUrl` and `model`.
- **The pure rules of the GitHub client** (`src/lib/github.ts`):
  - `parseRepoUrl`, which reads the owner and repository out of a URL path;
  - `getHeaders`;
  - three decisions taken inside `fetchRepoTree`, each lifted into its own
    function: the error message for a failed repository request, the
    default-branch fallback, and the blob-only filter.

Files:

- `wrappers.dfy` (`Wrappers`): `Option`, `Result`, `Outcome`.
- `seqs.dfy` (`Seqs`): the order-keeping filter behind `Array.prototype.filter`, and the subsequence relation.
- `jsstrings.dfy` (`JsStrings`): `split`, `trim`, `includes`, and an anchored suffix test.
- `ranking.dfy` (`Ranking`): the stable descending sort and `slice(0, limit)`.
- `rag.dfy` (`Rag`): the records, upsert, and the `VectorStore` class.
- `github.dfy` (`GitHub`): the GitHub rules.

How the model treats the parts it does not own:

- **The embedding provider** (`generateEmbedding`) is a parameter of type
  `Embedder`. It is a function from (base URL, model, text) to either
  `Embedded(vector)` or `EmbedFailed(reason)`.
- **The similarity** (`cosineSimilarity`) is a parameter of type `Scorer`. It is
  any function from two vectors to a real.
- **The URL parser** (`new URL(...)`) is replaced by its result. `ParseRepoUrl`
  takes the pathname, or `None` when the URL does not parse.

Each store operation is atomic. A thrown error becomes a `Fail`/`Err` value.

`VectorStore` has one ghost field, `added`. It holds the records successfully
added since the store was created or last cleared. `Valid()` ties `documents` to
`Ingest([], added)` and says that paths are pairwise distinct. Together with
`Count`'s contract, this states that the count is the number of distinct paths
added.

**Behaviour of the code that the model keeps:**

- `search` does not check that a model is configured. A store with records
  calls the provider with whatever `model` holds.
- `search` with `limit` 0 still calls the provider when the store has records.
  An empty result is immediate only for an empty store.
- Embeddings are not required to share one dimension. The code never checks this.
- `configure` never clears or tags the existing records.

## Model

| member | source | states |
|---|---|---|
| `Rag.VectorStore.constructor` | src/lib/rag.ts:9-12 | a new store has no records, base URL `http://localhost:11434`, and an empty model |
| `Rag.VectorStore.Configure` | src/lib/rag.ts:14-17 | base URL and model become the given ones; records and add history are unchanged |
| `Rag.VectorStore.AddDocument` | src/lib/rag.ts:19-27 | fails with NotConfigured exactly when the model is empty; a provider failure is returned as ProviderError; on either failure nothing changes; on success the records become the upsert of `(path, content, vector)` and the history grows by that record; paths stay distinct |
| `Rag.VectorStore.Search` | src/lib/rag.ts:29-43 | an empty store answers `[]` whatever the provider would do; otherwise a provider failure is returned as ProviderError, or the result is the prefix of the stable ranking; for `limit >= 0` its length is `min(limit, n)`; a negative limit counts back from the end as `slice` does; every result is a stored record; scores are non-increasing; the store cannot change |
| `Rag.VectorStore.Count` | src/lib/rag.ts:45-47 | the count is the number of distinct paths added since creation or the last clear |
| `Rag.VectorStore.Clear` | src/lib/rag.ts:49-51 | no records, empty history, and count 0; base URL and model are kept |
| `Rag.RemovePath` | src/lib/rag.ts:24 | no record with the path is left, and there are no more records than before; `RemovePathSpec` says what is kept |
| `Rag.Upsert` | src/lib/rag.ts:24-26 | the new record is last, and the count grows by at most one; `UpsertPlacesLast` and `UpsertKeepsDistinct` describe the rest |
| `Rag.RemovePathSpec` | src/lib/rag.ts:24 | the filter drops exactly the records with the path; it keeps all others in order and adds none; its path set is the old one minus the path |
| `Rag.RemovePathKeepsDistinct` | src/lib/rag.ts:24 | filtering keeps paths pairwise distinct |
| `Rag.PathsAppend` | src/lib/rag.ts:26 | appending a record adds exactly its path to the path set |
| `Rag.UpsertKeepsDistinct` | src/lib/rag.ts:24-26 | upsert keeps paths distinct; the path set gains the new path and loses none |
| `Rag.UpsertPlacesLast` | src/lib/rag.ts:24-26 | after upsert exactly one record has the path: the last, which is the new record; every record with another path is kept in order; nothing else is present |
| `Rag.DistinctPathsCount` | src/lib/rag.ts:45-47 | with distinct paths, the number of records equals the number of paths |
| `Rag.IngestPaths` | src/lib/rag.ts:19-27 | any run of successful adds keeps paths distinct and adds exactly the run's paths |
| `Rag.IngestCount` | src/lib/rag.ts:19-27 | from an empty store, the record count after any run of adds is the number of distinct paths in the run |
| `Rag.Rank` | src/lib/rag.ts:34-40 | the ranking is a permutation of the records with non-increasing scores; `RankIsStableSort` adds stability and uniqueness |
| `Rag.RankIsStableSort` | src/lib/rag.ts:34-40 | the ranking is a permutation of the records; it is a stable descending sort by score, and the only one |
| `Rag.RankKeepsStoreOrderOnTies` | src/lib/rag.ts:40 | records of equal score appear in the ranking in store order |
| `Rag.SearchReturnsBest` | src/lib/rag.ts:40-42 | no stored record left out of the prefix scores more than any record in it |
| `Rag.RankExample` | src/lib/rag.ts:34-42 | for any records a, b, c with embeddings [1,0], [0,1], [0.7,0.7] and the query [1,0], scored by the dot product (which ranks these three as the cosine does), the ranking is a, c, b, and limit 2 gives a, c |
| `Ranking.Insert` | src/lib/rag.ts:40 | inserting adds exactly the one element (multiset) |
| `Ranking.InsertKeepsOrder` | src/lib/rag.ts:40 | inserting into a descending sequence keeps it descending |
| `Ranking.SortDescending` | src/lib/rag.ts:40 | the sort is a permutation of its input with non-increasing scores |
| `Ranking.WithKeyInsert` | src/lib/rag.ts:40 | insertion puts the element in front of those of equal score and leaves the other scores' order alone |
| `Ranking.SortDescendingIsStable` | src/lib/rag.ts:40 | the sort keeps, for each score, the input order of the elements with that score |
| `Ranking.StableSortIsUnique` | src/lib/rag.ts:40 | two descending arrangements that agree on the order within every score are equal, so any stable sort gives the same result |
| `Ranking.Prefix` | src/lib/rag.ts:42 | `slice(0, limit)` is a prefix of the ranking; for `limit >= 0` it has `min(limit, n)` elements; a negative limit drops the last `-limit` elements, or all of them when there are no more than that |
| `Ranking.PrefixIsTop` | src/lib/rag.ts:42 | a prefix of a descending ranking is descending and scores at least as much as everything after it |
| `Seqs.Filter` | src/lib/rag.ts:24 | the result holds only elements of the input that pass, and every element that passes |
| `Seqs.FilterCounts` | src/lib/rag.ts:24 | every passing element is kept as many times as it occurs in the input, every failing one is dropped |
| `Seqs.FilterIsSubsequence` | src/lib/github.ts:153 | the filter keeps the input order |
| `Seqs.FilterConcat` | src/lib/github.ts:94 | filtering a concatenation concatenates the filtered parts |
| `JsStrings.Split` | src/lib/github.ts:94 | `split` yields at least one piece, and no piece contains the separator |
| `JsStrings.JoinSplit` | src/lib/github.ts:94 | joining the pieces with the separator gives back the string |
| `JsStrings.SplitConcat` | src/lib/github.ts:94 | splitting `a + sep + b` gives the pieces of `a` followed by those of `b` |
| `JsStrings.SplitNoSeparator` | src/lib/github.ts:94 | a string without the separator is a single piece |
| `JsStrings.TrimStart` | src/lib/github.ts:83-84 | drops a whitespace-only prefix; what remains does not start with whitespace |
| `JsStrings.TrimEnd` | src/lib/github.ts:83-84 | drops a whitespace-only suffix; what remains does not end with whitespace |
| `JsStrings.Trim` | src/lib/github.ts:83-84 | the result occurs in the string where the leading whitespace ends; everything before it and everything after it is whitespace; neither of its ends is whitespace; so it is the string with exactly its leading and trailing whitespace removed |
| `JsStrings.TrimEmptyIffBlank` | src/lib/github.ts:83 | trimming leaves nothing exactly when the string is all whitespace |
| `JsStrings.TrimIdempotent` | src/lib/github.ts:84 | trimming twice is trimming once |
| `JsStrings.Includes` | src/lib/github.ts:122 | true exactly when the string is some text, then the searched text, then some text; never true for a longer searched text; always true for the empty one |
| `JsStrings.EndsWith` | src/lib/github.ts:93 | true exactly when the string is some text followed by the suffix; a string that ends with the suffix includes it |
| `GitHub.Segments` | src/lib/github.ts:94 | `split('/').filter(Boolean)` yields only non-empty, slash-free names; `SegmentsConcat`, `SegmentsSkipSlashes`, `SegmentsOfWord` and `SegmentsOfOwnerRepo` fix which |
| `GitHub.StripGitSuffix` | src/lib/github.ts:93 | one `.git` is removed, and only at the very end; other paths are untouched |
| `GitHub.ParseRepoUrl` | src/lib/github.ts:89-103 | an unparsable URL gives null; otherwise the result is non-null exactly when at least two non-empty segments remain after stripping; owner and repo are non-empty and slash-free |
| `GitHub.SegmentsSkipSlashes` | src/lib/github.ts:94 | leading slashes contribute no segment |
| `GitHub.SegmentsConcat` | src/lib/github.ts:94 | the segments of `a/b` are those of `a` followed by those of `b` |
| `GitHub.SegmentsOfWord` | src/lib/github.ts:94 | a non-empty slash-free word is one segment |
| `GitHub.SegmentsOfOwnerRepo` | src/lib/github.ts:94-97 | leading and repeated slashes around two names give exactly those two segments |
| `GitHub.StripGitSuffixInTail` | src/lib/github.ts:93 | a `.git` is only ever stripped inside the last slash-led part of the path |
| `GitHub.ParseRepoUrlWithTail` | src/lib/github.ts:93-98 | `/owner/repo` followed by any slash-led tail gives (owner, repo), whatever the slashes; a `.git` further right is not stripped from the name |
| `GitHub.ParseRepoUrlAtEnd` | src/lib/github.ts:93-98 | `/owner/repo` and `/owner/repo.git` both give (owner, repo) |
| `GitHub.ParseRepoUrlSingleName` | src/lib/github.ts:94-102 | a path with at most one name between its slashes gives null |
| `GitHub.SegmentsNoMoreThanWord` | src/lib/github.ts:94 | a word followed by slashes has at most one segment |
| `GitHub.GetHeaders` | src/lib/github.ts:78-87 | Accept is always `application/vnd.github.v3+json`; Authorization is present exactly when a token is given and is not blank, with value `Bearer ` plus the trimmed token; no other header |
| `GitHub.ErrorDetail` | src/lib/github.ts:116 | the body's message when present and non-empty, otherwise the status text |
| `GitHub.RepoResponseError` | src/lib/github.ts:114-132 | no error exactly for status 200-299; Bad Credentials exactly for 401; Rate Limit exactly for 403 with `rate limit` in the detail; not-found with owner/repo exactly for 404; `GitHub Error: <detail>` exactly otherwise |
| `GitHub.DefaultBranch` | src/lib/github.ts:135 | never empty; the given branch when it is non-empty, otherwise `main` |
| `GitHub.Blobs` | src/lib/github.ts:153 | exactly the entries of type `blob`, each as many times as it is listed, in listing order |

## Left out

- Network requests, toasts and console output (`fetch`, `toast`, `console`) are not modelled. They are I/O and UI side effects.
- `fetchFileContent`, `fetchPullRequests`, `fetchBranches`, `compareBranches` and `fetchPullRequestFiles` are not modelled. They only perform requests and return JSON; base64 decoding relies on the foreign `atob` and `TextDecoder`.
- `fetchRepoTree`'s tree request and `truncated` warning are not modelled; only its three decisions are. The request URLs are plain string interpolation.
- `cosineSimilarity` is a parameter (`Scorer`). It is floating-point code with `Math.sqrt`, and it gives NaN for a zero vector, which the sort comparator does not handle. As a result, cosine symmetry is not stated.
- `generateEmbedding` is a parameter (`Embedder`). The model assumes a successful answer is a vector; a body without an `embedding` field, which the code would store as `undefined`, is not modelled.
- `Rag.VectorStore.Search`: `limit` is an integer. A fractional or NaN `limit` is not modelled.
- `streamChat`, `checkConnection` and `getModels` in `src/lib/ollama.ts` are not modelled. They are stream and network I/O.
- `src/lib/storage.ts` is not part of this model. It is a wrapper over IndexedDB with no logic of its own.
- Concurrent, interleaved `addDocument` and `search` calls are not modelled. Each call is atomic.
- The module-level singleton `store` is not modelled separately. It is one `VectorStore` instance.
- `GitHub.ParseRepoUrl`: the URL constructor is not modelled. Its pathname, or its failure to parse, is the input.
- `GitHub.RepoResponseError`: the error body is assumed to be a JSON object, or unreadable, which the code turns into `{}`. A body that is the JSON text `null` makes `errorData.message` (github.ts:116) throw a TypeError before any status rule runs; that throw is not modelled.
- `GitHub.DefaultBranch`: the repository body is assumed to be a JSON object. A `null` body makes `repoData.default_branch` (github.ts:135) throw; that throw is not modelled.
- `GitHub.Blobs`: the tree body is assumed to be an object with a `tree` array. A `null` body throws at `treeData.truncated` (github.ts:148), and a body without `tree` throws at `treeData.tree.filter` (github.ts:153); neither throw is modelled.
- `GitHub.RepoResponseError`: the body's `message` is a string or absent. A non-string JSON `message` is not modelled. The code calls its `includes` only for status 403; that call throws for most non-string values, but not for an array. When the code reaches the last branch, it interpolates the value into `GitHub Error: …` whatever its type.
