# Chainlit documentation downloader and RAG ingestion, modelled in Dafny

This project models the two Python programs that make up the core of a small
retrieval-augmented question-answering system over the Chainlit
documentation.

- `download_chainlit_docs.py` is the crawler. It starts at
  `https://docs.chainlit.io/`, marks each URL visited before fetching it,
  saves the main content of each fetched page (the `div` with id
  `content-area`, or the whole page when there is none) under
  `chainlit_docs/` as a `.txt` or `.md` file whose path is derived from the
  URL, and then follows, depth first, every link on the page that stays on
  the base URL's host, with query and fragment cut off. A failed request is
  reported and the page is skipped. Any other exception raised while saving
  (`ImportError`, `ValueError`, `OSError`) ends the whole crawl.
- `main.py` is the ingestion and answer path. `process_text` lower-cases the
  text, deletes punctuation, splits it on whitespace and drops stop words.
  `load_documents` walks the output directory and turns each `.txt` file into
  a document whose topic is the name of its folder. `index_documents` gives
  the i-th document the point id `i` with the document as payload.
  `generate_response` lays the retrieved texts out in a Spanish prompt and
  keeps what the language model wrote after it.

The Dafny modules follow that structure:

| module | file | what it holds |
|---|---|---|
| `Wrappers` | `wrappers.dfy` | `Option`, `Result` and `Outcome` |
| `Text` | `text.dfy` | the string operations Python provides: `endswith`, `split(c)`, `split()`, `join`, `strip`, search for a character |
| `UrlParse` | `url.dfy` | `urlparse` as the component split of RFC 3986 Appendix B; recomposition as in section 5.3; `urljoin` as reference resolution as in section 5.2, including dot-segment removal (section 5.2.4) |
| `PosixPath` | `posix_path.dfy` | `os.path.splitext`, `join`, `basename` and `dirname` for POSIX paths |
| `Html` | `html.dfy` | the parse tree BeautifulSoup returns, and the queries `find`, `get_text` and `find_all("a", href=True)` |
| `ChainlitDocs` | `download_docs.dfy` | `sanitize_path`, `convert_content`, `save_page`, `get_internal_links`, and the class `Crawler` for `crawl` and the entry point |
| `Rag` | `rag.dfy` | `process_text`, `load_documents`, `index_documents` and `generate_response` |

The crawler is a class. Its fields are:

- the module-level `visited` set;
- the files on disk, as a map from path to contents;
- a ghost log of every request made;
- a ghost log of every file written.

The web is a map from URL to parsed page. A URL missing from the map is a
request that raises `RequestException`. A set of unwritable paths stands for
the paths where creating the directory or the file raises `OSError`.

The main crawl property is stated on `Crawler.CrawlSite`. When the crawl
ends without an exception:

- the visited set is exactly the set of URLs reachable from the base URL
  through internal links between fetchable pages;
- every reachable fetchable page was written, with its converted text, to
  the file `sanitize_path` names (`Crawler.Faithful` ties every write to
  its page).

Otherwise the last URL requested is the page whose save raised the reported
exception: nothing is fetched after it. Because
`Crawler.Valid` keeps the request log free of duplicates, no URL is fetched
twice.

Three behaviours of the program are worth knowing:

- The crawl is recursive and depth first over one global `visited` set.
- A URL with an empty path (`https://docs.chainlit.io`) is saved as the
  hidden file `chainlit_docs/.txt`. `ChainlitDocs.EmptyPathFile` states this.
- Pages at `/a/b.html` and `/a/b` are saved to the same file, so the later
  write wins. `ChainlitDocs.ExtensionCollision` and
  `ChainlitDocs.LastWriteWins` state this.

## Model

| member | source | states |
|---|---|---|
| `ChainlitDocs.SanitizePath` | download_chainlit_docs.py:21-37 | definition, no contract of its own: the file path of the URL's parsed path; its properties are stated by `FileHasExtension`, `FileHasDirectory`, `SanitizeIgnoresQueryAndFragment` and the concrete page lemmas |
| `ChainlitDocs.FilePathFor` | download_chainlit_docs.py:28-37 | definition, no contract of its own: append `index` to a directory path, replace or add the extension, drop one leading `/`, join under the output directory; stated by `FileForDirectory`, `FileReplacesExtension` and `FileAddsExtension` |
| `ChainlitDocs.FileHasExtension` | download_chainlit_docs.py:28-37 | the file path of every URL path ends with the extension of the output format |
| `ChainlitDocs.FileForDirectory` | download_chainlit_docs.py:28-37 | a path ending in `/` is saved as `index` plus the extension, under the output directory |
| `ChainlitDocs.FileReplacesExtension` | download_chainlit_docs.py:31-37 | a path with an extension keeps its stem; its extension is replaced by the output format's |
| `ChainlitDocs.FileAddsExtension` | download_chainlit_docs.py:31-37 | a path without an extension or a trailing `/` gets the extension appended, under the output directory |
| `ChainlitDocs.FileHasDirectory` | download_chainlit_docs.py:37 | with a non-empty output directory, every file path has a non-empty directory part |
| `ChainlitDocs.IndexHasNoExtension` | download_chainlit_docs.py:28-32 | after `index` is appended, the path has no extension, so the output extension is appended |
| `ChainlitDocs.SanitizeIgnoresQueryAndFragment` | download_chainlit_docs.py:26-27 | the file path depends on the URL's path only: cleaning the query and fragment off changes nothing |
| `ChainlitDocs.ParseOfSiteUrl` | download_chainlit_docs.py:26-27 | the path of a URL on the documentation host is the text after the host |
| `ChainlitDocs.RootPageFile` | download_chainlit_docs.py:14-37 | the base URL is saved as `chainlit_docs/index.txt` |
| `ChainlitDocs.RootFile` | download_chainlit_docs.py:28-37 | the path `/` becomes `chainlit_docs/index.txt` |
| `ChainlitDocs.ExtensionCollision` | download_chainlit_docs.py:31-34 | the pages `/a/b.html` and `/a/b` are both saved as `chainlit_docs/a/b.txt` |
| `ChainlitDocs.HtmlPageFile` | download_chainlit_docs.py:21-37 | `/a/b.html` is saved as `chainlit_docs/a/b.txt` |
| `ChainlitDocs.BarePageFile` | download_chainlit_docs.py:21-37 | `/a/b` is saved as `chainlit_docs/a/b.txt` |
| `ChainlitDocs.HtmlFile` | download_chainlit_docs.py:31-37 | the path `/a/b.html` becomes `chainlit_docs/a/b.txt` |
| `ChainlitDocs.BareFile` | download_chainlit_docs.py:31-37 | the path `/a/b` becomes `chainlit_docs/a/b.txt` |
| `ChainlitDocs.EmptyPathFile` | download_chainlit_docs.py:21-37 | the host without a path is saved as the hidden file `chainlit_docs/.txt` |
| `ChainlitDocs.EmptyFile` | download_chainlit_docs.py:28-37 | the empty path becomes `chainlit_docs/.txt` |
| `ChainlitDocs.ContentRegion` | download_chainlit_docs.py:44-49 | definition, no contract of its own: the first content area, or the whole page when there is none; stated by `ConvertOnlyContentArea` |
| `ChainlitDocs.ConvertContent` | download_chainlit_docs.py:39-60 | conversion succeeds exactly for `txt`, or for `md` with `html2text` installed; it raises `ImportError` exactly for `md` without `html2text`, and `ValueError` exactly for any other format |
| `ChainlitDocs.ConvertOnlyContentArea` | download_chainlit_docs.py:44-49 | two pages with the same content area convert to the same text, whatever else they hold |
| `ChainlitDocs.ConvertTextLines` | download_chainlit_docs.py:50-51 | in `txt` format, when the region has at least one text node and no text node holds a newline, the saved text splits on newlines back into the region's text nodes, in document order (whitespace text nodes between tags usually hold newlines, and then this does not apply) |
| `ChainlitDocs.LinkOf` | download_chainlit_docs.py:81-85 | definition, no contract of its own: the cleaned absolute URL of one `href` when its authority is the base URL's, else nothing; stated by `LinkOfMember`, `RelativeLinksFollowed` and `ForeignLinksDropped` |
| `ChainlitDocs.LinkTargets` | download_chainlit_docs.py:79-86 | definition, no contract of its own: the union of `LinkOf` over the `href`s; stated by `LinkTargetsMember` and `LinkTargetsAreClean` |
| `ChainlitDocs.GetInternalLinks` | download_chainlit_docs.py:74-86 | the loop over the anchors returns the union over every `href` of its cleaned absolute URL, kept when it is on the base host |
| `ChainlitDocs.LinkTargetsMember` | download_chainlit_docs.py:80-85 | a URL is a link of the page exactly when some `href` on the page yields it |
| `ChainlitDocs.LinkTargetsAreClean` | download_chainlit_docs.py:83-85 | every link is on the base URL's host, holds no `#` or `?`, and is unchanged by cleaning |
| `ChainlitDocs.RelativeLinksFollowed` | download_chainlit_docs.py:82-85 | on a page of the base host, every relative `href` yields the cleaned resolved URL as a link |
| `ChainlitDocs.ForeignLinksDropped` | download_chainlit_docs.py:83 | an absolute `href` to another host yields no link |
| `ChainlitDocs.DuplicateHrefsCollapse` | download_chainlit_docs.py:79-85 | a repeated `href` adds no link: the links form a set |
| `ChainlitDocs.UnionOverMember` | download_chainlit_docs.py:79-85 | membership in the union accumulated by the loop means membership in the set of some element |
| `ChainlitDocs.LastWriteWins` | download_chainlit_docs.py:70-71 | after a sequence of writes, a file exists exactly when it existed before or was written, and holds the last text written to it |
| `ChainlitDocs.WrittenUrlsMember` | download_chainlit_docs.py:70-72 | a URL is among the saved URLs exactly when some write saved it |
| `ChainlitDocs.NoDupDistinct` | download_chainlit_docs.py:93-95 | the request log has no duplicate exactly when its entries are pairwise distinct |
| `ChainlitDocs.ElemsMember` | download_chainlit_docs.py:93-95 | the visited set is the set of entries of the request log |
| `ChainlitDocs.SaveResult` | download_chainlit_docs.py:62-72 | saving succeeds with the converted text exactly when conversion succeeds and the target file can be created; a conversion error is passed on unchanged; otherwise `OSError` is raised |
| `ChainlitDocs.Crawler.Valid` | download_chainlit_docs.py:19 | invariant, no contract of its own: the visited set is the set of URLs requested, no URL is requested twice, and the disk is the initial disk after the logged writes |
| `ChainlitDocs.Crawler.constructor` | download_chainlit_docs.py:19 | a crawler starts with an empty visited set, no requests and no writes, over the given web and disk |
| `ChainlitDocs.Crawler.SavePage` | download_chainlit_docs.py:62-72 | on success, the page's text is written to its sanitised path and nothing else changes; on failure, the exception is returned and the disk is unchanged |
| `ChainlitDocs.Crawler.WriteFile` | download_chainlit_docs.py:70-71 | the file at the path now holds the text; the write is logged |
| `ChainlitDocs.Crawler.EdgeIsLink` | download_chainlit_docs.py:102-106 | the crawl graph has an edge from `u` to `v` exactly when `u` can be fetched and `v` is one of its internal links |
| `ChainlitDocs.Crawler.ReachableStep` | download_chainlit_docs.py:103-106 | following a link from a reachable page reaches another reachable page |
| `ChainlitDocs.Crawler.ReachableInUniverse` | download_chainlit_docs.py:88-108 | every reachable URL lies in the finite set of the seed and all link targets, which bounds the recursion |
| `ChainlitDocs.Crawler.ClosedContainsReachable` | download_chainlit_docs.py:103-106 | a set that holds the seed and every link of its fetchable members holds every reachable URL |
| `ChainlitDocs.Crawler.PathInside` | download_chainlit_docs.py:103-106 | a link path that starts in a closed set stays in it |
| `ChainlitDocs.Crawler.SavedWriteFor` | download_chainlit_docs.py:100 | every saved URL has a write holding its sanitised path and converted text |
| `ChainlitDocs.Crawler.ProcessPage` | download_chainlit_docs.py:96-102 | on success the page's save succeeded, exactly one write of its converted text to its file is added, the disk gains that file, and the page's links are returned; on failure the save's exception is returned and neither the writes nor the disk change |
| `ChainlitDocs.Crawler.MarkVisited` | download_chainlit_docs.py:93-97 | the URL joins the visited set and is requested once |
| `ChainlitDocs.Crawler.Crawl` | download_chainlit_docs.py:88-108 | a visited URL is skipped; an unfetchable URL is only marked; otherwise every newly visited URL is reachable, its links are all visited, and it was saved when fetchable; on failure the last URL requested is the page whose save raised the error, so the crawl stops there |
| `ChainlitDocs.Crawler.CrawlLinks` | download_chainlit_docs.py:103-106 | after the loop every link of the page is visited, and every newly visited page is closed under links and saved; on failure the last URL requested is the page whose save raised the error, and no further link is followed |
| `ChainlitDocs.Crawler.CrawlSite` | download_chainlit_docs.py:110-113 | on success the visited set is exactly the set of URLs reachable from the base URL, every write saved its page's converted text to its sanitised path, and every reachable fetchable page was written; on failure the last URL requested is a fetchable page whose save raised the error |
| `UrlParse.Parse` | download_chainlit_docs.py:26 | definition, no contract of its own: the RFC 3986 Appendix B split into scheme, authority, path, query and fragment; stated by `RecomposeParse`, `ParseRecompose` and `ParseWellFormed` |
| `UrlParse.Clean` | download_chainlit_docs.py:84 | definition, no contract of its own: the text before the first `#`, then before the first `?`; stated by `CleanRemovesQueryAndFragment`, `CleanCutsAt` and `CleanProperties` |
| `UrlParse.Resolve` | download_chainlit_docs.py:82 | definition, no contract of its own: section 5.2.2 of RFC 3986; stated by `ResolveWellFormed`, `JoinKeepsHost` and `JoinTakesAuthority` |
| `UrlParse.RemoveDots` | download_chainlit_docs.py:82 | definition, no contract of its own: section 5.2.4 of RFC 3986; stated by `RemoveDotsRooted` and `RemoveDotsChars` |
| `UrlParse.Join` | download_chainlit_docs.py:82 | definition, no contract of its own: `urljoin`, an empty argument giving the other back; stated by `JoinKeepsHost` and `JoinTakesAuthority` |
| `UrlParse.RecomposeParse` | download_chainlit_docs.py:26 | recomposing a parsed URL gives back the original string |
| `UrlParse.ParseRecompose` | download_chainlit_docs.py:26 | parsing a recomposed well-formed URL gives back its components |
| `UrlParse.ParseWellFormed` | download_chainlit_docs.py:26 | every parse result is well formed |
| `UrlParse.CleanRemovesQueryAndFragment` | download_chainlit_docs.py:84 | cutting at the first `#` and then at the first `?` gives the URL with its query and fragment removed |
| `UrlParse.CleanProperties` | download_chainlit_docs.py:84 | a cleaned URL holds no `#` or `?`, cleaning is idempotent, and the host and path are kept |
| `UrlParse.CleanCutsAt` | download_chainlit_docs.py:84 | cleaning a string cuts it exactly where its query or fragment begins |
| `UrlParse.ResolveWellFormed` | download_chainlit_docs.py:82 | resolving a reference against a page gives a well-formed URL |
| `UrlParse.JoinKeepsHost` | download_chainlit_docs.py:82-83 | a relative reference resolved against a page keeps the page's host |
| `UrlParse.JoinTakesAuthority` | download_chainlit_docs.py:82-83 | a reference with its own host keeps that host |
| `UrlParse.RemoveDotsRooted` | download_chainlit_docs.py:82 | dot-segment removal keeps an absolute path absolute |
| `UrlParse.RemoveDotsChars` | download_chainlit_docs.py:82 | dot-segment removal introduces no new character other than `/` |
| `PosixPath.SplitExt` | download_chainlit_docs.py:31-34 | stem and extension concatenate to the path; a non-empty extension starts at the last `.`, which lies after the last `/` and after some other character of its name than `.`; the extension is empty exactly when no `.` follows such a character in the last component (so `.txt` and `..` have none) |
| `PosixPath.PathJoin` | download_chainlit_docs.py:37 | the joined path ends with the second part; a second part starting with `/` replaces the first (so a URL path `//x` escapes the output directory); otherwise one `/` is put between them unless the first is empty or ends with `/` |
| `PosixPath.Basename` | main.py:42 | the base name is the end of the path after its last `/`: it holds no `/`, and the character before it is `/` |
| `PosixPath.Dirname` | main.py:42 | definition, no contract of its own: the path up to its last `/`, with trailing slashes removed unless it is all slashes; stated by `DirnameOfChild` and `DirnameNonEmpty` |
| `PosixPath.DirnameNonEmpty` | download_chainlit_docs.py:69 | a path holding a `/` has a non-empty directory part, so `os.makedirs` gets a directory to create |
| `PosixPath.RStripSlashes` | main.py:42 | a prefix without a trailing `/`, the rest of the string being slashes |
| `PosixPath.DirnameOfChild` | main.py:40-42 | the directory of a child path is its parent with trailing slashes removed, except for a root made of slashes |
| `PosixPath.ContainingDirectoryName` | main.py:40-42 | the base name of the directory of `join(root, name)` is the last component of `root` |
| `Html.FindContentArea` | download_chainlit_docs.py:45 | definition, no contract of its own: `FirstContentArea` over the document in preorder |
| `Html.GetText` | download_chainlit_docs.py:51 | definition, no contract of its own: the text nodes of the region in document order joined with the separator; stated by `ConvertTextLines` |
| `Html.FindAllHrefs` | download_chainlit_docs.py:80-81 | definition, no contract of its own: `HrefsOf` over the document in preorder |
| `Html.FirstContentArea` | download_chainlit_docs.py:45 | `find` returns nothing exactly when no node is the content area; otherwise it returns the first one in document order |
| `Html.HrefsOf` | download_chainlit_docs.py:80-81 | the `href`s found are exactly the `href` values of the anchor elements that have one |
| `Text.SplitOnJoin` | download_chainlit_docs.py:51 | joining parts that lack `c` with `c`, and splitting on `c`, gives back the parts |
| `Text.WordsJoin` | main.py:25-28 | splitting the space-join of non-empty words without whitespace gives back the words |
| `Text.Strip` | main.py:157 | the result is a slice of the input with no whitespace at either end, and what was cut off on both sides is all whitespace; it is empty exactly when the input is all whitespace |
| `Text.Words` | main.py:25 | every token is non-empty and holds no whitespace |
| `Rag.Lower` | main.py:23 | same length; capitals become the matching small letter; every other character is kept |
| `Rag.LowerNoOp` | main.py:23 | lowering a string without capitals changes nothing |
| `Rag.RemovePunctuation` | main.py:24 | no punctuation is left, every other character occurs as often as before, and the result is a subsequence of the input, so the order is kept; together these determine the result |
| `Rag.RemovePunctuationNoOp` | main.py:24 | a string without punctuation is unchanged |
| `Rag.DropStopwords` | main.py:27 | a word is kept exactly when it is a token and not a stop word, and each kept word occurs as often as among the tokens |
| `Rag.DropStopwordsSubsequence` | main.py:27 | the kept words are the tokens in their original order, with some left out |
| `Rag.DropStopwordsNoOp` | main.py:27 | without stop words among the tokens, all are kept |
| `Rag.Tokens` | main.py:23-25 | definition, no contract of its own: the whitespace-separated words of the lower-cased text without punctuation |
| `Rag.ProcessText` | main.py:18-28 | definition, no contract of its own: the kept tokens joined by single spaces; stated by the `ProcessText` lemmas below |
| `Rag.ProcessTextAlphabet` | main.py:18-28 | processed text holds no capital letter and no punctuation |
| `Rag.ProcessTextTokens` | main.py:18-28 | the words of the processed text are exactly the kept tokens: no stop word, in order |
| `Rag.ProcessTextSpacing` | main.py:25-28 | processed text is its words joined by single spaces, has no whitespace at either end, and is empty exactly when no token is kept |
| `Rag.ProcessTextIdempotent` | main.py:18-28 | processing already processed text changes nothing |
| `Rag.ProcessTextOneLine` | main.py:18-28 | processed text holds no newline |
| `Rag.LoadFile` | main.py:40-50 | definition, no contract of its own: the document of one file; stated by `TopicIsFolderName` and `ReadDocument` |
| `Rag.TxtDocs` | main.py:38-50 | definition, no contract of its own: the documents of a directory's `.txt` files in listing order; stated by `TxtDocsMember` |
| `Rag.WalkDocs` | main.py:36-51 | definition, no contract of its own: the documents of all directories of the walk in order; stated by `WalkDocsMember`, `LoadedDocsAreTxt` and `TxtFilesAreLoaded` |
| `Rag.LoadDocuments` | main.py:30-51 | the loops produce, directory by directory and file by file, one document per `.txt` file of the walk |
| `Rag.ReadDocument` | main.py:40-50 | the document keeps the file's name, its text is the processed contents of the joined path, and for a plain file name its topic is the last component of the directory it is in |
| `Rag.TxtDocsMember` | main.py:38-39 | a directory yields a document exactly for each of its `.txt` names |
| `Rag.WalkDocsMember` | main.py:37-38 | the walk yields a document exactly when some directory yields it |
| `Rag.LoadedDocsAreTxt` | main.py:37-50 | every loaded document comes from a `.txt` file of the walk, and its text is that file's processed contents |
| `Rag.TxtFilesAreLoaded` | main.py:37-50 | every `.txt` file of the walk is loaded |
| `Rag.TopicIsFolderName` | main.py:40-42 | a document's topic is the last component of the directory it was found in |
| `Rag.IndexDocuments` | main.py:86-102 | one point per document, in order; point `i` has id `i` and the document as payload |
| `Rag.ContextTexts` | main.py:150 | one text per retrieved hit, in order: the hit's payload text |
| `Rag.Prompt` | main.py:151-153 | definition, no contract of its own: header, the texts joined by newlines, question marker, query, answer marker; stated by `PromptLayout` |
| `Rag.PromptLayout` | main.py:151-153 | the prompt is the header, the joined context, the question marker, the query and the answer marker, at known offsets |
| `Rag.ContextLinesRecoverable` | main.py:151 | newline-free texts can be split back out of the context |
| `Rag.ProcessedContextRecoverable` | main.py:18-28 | processed document texts can be split back out of the context, one per hit |
| `Rag.Answer` | main.py:157 | output no longer than the prompt gives an empty answer; the answer has no whitespace at either end |
| `Rag.AnswerAfterEcho` | main.py:157 | when the output echoes the prompt, the answer is exactly the stripped continuation |
| `Rag.GenerateResponse` | main.py:144-158 | definition, no contract of its own: the answer the model gives to the prompt of the hits' texts and the query; stated by `Answer` and `GenerateResponseEcho` |
| `Rag.GenerateResponseEcho` | main.py:144-158 | for a model that echoes the prompt, the response is the stripped continuation |

## Left out

- Fetching pages over the network is not modelled. The web is a fixed map from URL to parsed page. A status error from `raise_for_status` and a connection error are both a missing entry.
- `time.sleep` between requests is left out. It has no effect on the result.
- `print` messages are left out. This includes the missing-content-area warning and the request-error report.
- HTML parsing is not modelled. A page is a tree of elements and text nodes. It holds only the strings `get_text` returns: comments and the strings inside `script`, `style` and `template` elements, which `get_text` skips, are not in the tree.
- `html2text`'s Markdown conversion is a function parameter of the configuration. Its output is not modelled.
- `os.makedirs` and file creation are reduced to one outcome. The write succeeds, or it raises `OSError` when the path has no directory part or is one of the unwritable paths. Partial writes and permissions are not modelled.
- `urlparse` is modelled as the RFC 3986 split. Python's separate `;params` field and its scheme-character check are not modelled.
- `urlsplit` lower-cases the scheme. The model keeps it as written.
- `urlsplit` strips leading C0 control characters and spaces, and removes every tab, CR and LF. The model does neither.
- `urlsplit` raises `ValueError("Invalid IPv6 URL")` on an unbalanced `[` or `]` in the authority. The crawl does not catch it, so it would end the crawl. The model never raises it.
- The host comparison compares the whole authority (user information, host and port), as the source compares `netloc`.
- Join: modelled as the strict resolution of section 5.2.2 of RFC 3986. Python's `urljoin` resolves a reference that repeats the base's scheme without an authority (`https:foo`) as relative, and returns a reference with a scheme it does not treat as relative unchanged. Its dot-segment removal also differs in corner cases. None of this is modelled.
- The iteration order of the `links` set in `crawl` is not determined. The model picks an arbitrary remaining link each time, so its properties hold for every order.
- Recursion depth is not modelled. Python's recursion limit on a very deep link chain is not modelled.
- `Rag.Lower`: does not model Unicode case mapping, because only ASCII capitals are lowered, while `str.lower` also lowers non-ASCII letters.
- Stop words are a parameter. The NLTK English list and its download are not part of this model.
- `os.walk` is a parameter: the sequence of directories with their file names, in the order the walk yields them. The directory tree and its traversal order are not modelled.
- Reading a file is a total function from path to contents. Decoding errors and unreadable files are not modelled.
- Embeddings, the Qdrant collection setup, `upsert` and `search` are not modelled. `retrieve_documents` is not modelled, and neither are scores. A retrieved hit is given as an id with its payload.
- The language model is a function parameter from prompt to generated text. `max_length`, sampling and the temperature are not modelled.
- The Chainlit chat handlers, the `.env` loading and the ingestion script around the core are not part of this model.
