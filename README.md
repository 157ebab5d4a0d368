# thumbnail-finder, modelled in Dafny

This project models how thumbnail-finder picks a thumbnail for a link, and the
URL toolkit it relies on. It also models the script that decides which files
of the static-file bucket to delete.

- `wrappers.dfy`: `Option`, standing in for Python's `None`.
- `text.dfy`: the string built-ins the code uses, with their laws.
  - `split` and `join` on one character, proved to be inverses.
  - `startswith`, substring `in`, ASCII `lower`, `count`, `lstrip` and `strip`.
- `url_utils.dfy` (module `UrlUtils`) covers `thumbnail_finder/utils.py`:
  - `strip_www`, `query_string` and `coerce_url_to_protocol`;
  - the query dictionary, an ordered dictionary where a repeated key keeps its first position and takes the last value;
  - the `UrlParser` class, whose methods update its fields in place;
  - the `is_web_safe_url` checks, performed on the object and on a re-parse of its unparsed form.
- `thumbnail_finder.dfy` (module `ThumbnailFinder`) covers `thumbnail_finder/thumbnail_finder.py`:
  - URL cleaning and the request gate with its headers;
  - the chunked image-size probe;
  - scraper dispatch;
  - the generic scraper's heuristics, tried in order: the Open Graph tag, then the `image_src` link, then the largest acceptable image;
  - the oEmbed scraper for YouTube links;
  - `get_thumbnail_url`.
- `clean_static_files.dfy` (module `CleanStaticFiles`) covers `scripts/clean_static_files.py`:
  - the mature-file age filter;
  - the repository listings with their common prefix stripped;
  - generated names and their `.gzip` twins;
  - live stylesheets;
  - the final deletion decision.

Whatever the code gets from outside is passed in as a parameter:
- `UrlLib` holds `urlparse`, `urlunparse`, `urljoin`, `quote_plus` and `unquote_plus`.
- `Network` holds the page fetch, the HTML parser, the image stream, PIL's incremental size parser, and the oEmbed service.
- The bucket listing, the git listings, the build's name table, the subreddit query and the configuration are plain values.

A step that can raise is modelled by `Outcome` (`Found`, `NoResult` or `Raised`). At `get_thumbnail_url`, every `Raised` becomes `None`.

## Model

| member | source | states |
|---|---|---|
| UrlUtils.StripWww | thumbnail_finder/utils.py:44-53 | the domain is unchanged unless it has more than one `.` and starts with `www`, optional digits and `.`; in that case exactly the first label and its dot are dropped |
| UrlUtils.DropFirstPiece | thumbnail_finder/utils.py:52 | joining all pieces of a split but the first gives the text after the first separator |
| UrlUtils.Put | thumbnail_finder/utils.py:158 | an ordered-dictionary store: keys stay distinct, an existing key keeps its place, a new key goes last, and the lookup map gains exactly that binding |
| UrlUtils.UpdateAllFresh | thumbnail_finder/utils.py:175-176 | storing pairs whose keys are all new appends them in order |
| UrlUtils.ToMapOrderInsensitive | thumbnail_finder/utils.py:147 | two dictionaries holding the same entries compare equal as plain dicts, whatever their order |
| UrlUtils.NonEmpty | thumbnail_finder/utils.py:176 | the `if p` filter keeps exactly the non-empty parameters, each as often as it occurs, and keeps all of them when none is empty |
| UrlUtils.NonEmptyConcat | thumbnail_finder/utils.py:176 | the filter keeps the parameters' order: filtering a concatenation concatenates the filtered parts |
| UrlUtils.RawParamCutsAtFirstEquals | thumbnail_finder/utils.py:171-174 | a parameter splits at its first `=`: the key has no `=`, key `=` value restores it, and a parameter without `=` has an empty value |
| UrlUtils.SplitParams | thumbnail_finder/utils.py:171-176 | each parameter becomes its unquoted key and value, one pair per parameter |
| UrlUtils.ParseQuery | thumbnail_finder/utils.py:170-177 | the parsed query dictionary never holds a key twice |
| UrlUtils.Dedup | thumbnail_finder/utils.py:175-176 | a key is listed exactly when it occurs, and no key is listed twice |
| UrlUtils.FirstIndex | thumbnail_finder/utils.py:175-176 | the position of a key's first occurrence: it holds the key and no earlier position does |
| UrlUtils.DedupOrder | thumbnail_finder/utils.py:175-176 | the keys are listed in order of first occurrence: a key listed earlier first occurs earlier |
| UrlUtils.UpdateAll | thumbnail_finder/utils.py:158 | updating an ordered dictionary with pairs one by one keeps its keys distinct |
| UrlUtils.UpdateAllKeys | thumbnail_finder/utils.py:158 | updating a dictionary with pairs leaves its keys in place and appends each new key where it first occurs |
| UrlUtils.UpdateAllValues | thumbnail_finder/utils.py:158 | after the update, each key maps to the value of its last occurrence among the old entries and then the pairs |
| UrlUtils.ToMapLastWins | thumbnail_finder/utils.py:175-176 | a key's value is that of its last occurrence |
| UrlUtils.ParseQueryContents | thumbnail_finder/utils.py:170-177 | the dictionary's keys are the unquoted keys of the non-empty parameters in first-occurrence order, and each holds the unquoted value of its key's last parameter |
| UrlUtils.QueryString | thumbnail_finder/utils.py:56-69 | the string is empty exactly when every value is None, starts with `?` otherwise, and is the `&`-join of the escaped `k=v` pairs whose value is not None |
| UrlUtils.EncodedPairsShape | thumbnail_finder/utils.py:56-69 | with an escaping that removes `&` and `=`, every emitted pair is non-empty and holds exactly one `=` |
| UrlUtils.ParsePairs | thumbnail_finder/utils.py:171-176 | splitting the emitted pairs and unquoting them gives back the dictionary's entries |
| UrlUtils.QueryRoundTrip | thumbnail_finder/utils.py:56-69 | for a dictionary with distinct keys and an escaping that never emits `&`, `=` or `?` and that the unquoting inverts, parsing `query_string(d)` without its `?` gives back `d` |
| UrlUtils.PathExtension | thumbnail_finder/utils.py:179-190 | a non-empty extension comes from a last path segment holding a `.` |
| UrlUtils.HasImageExtension | thumbnail_finder/utils.py:192-195 | a path with an image extension has a non-empty extension |
| UrlUtils.PathExtensionIsLastDotSuffix | thumbnail_finder/utils.py:179-190 | the extension is the text after the last `.` of the last path segment, holds no `.` or `/`, and is empty when that segment has no `.` |
| UrlUtils.HasStaticImageExtension | thumbnail_finder/utils.py:192-200 | a static image extension is an image extension and is never `gif` |
| UrlUtils.LastSegmentIsSuffix | thumbnail_finder/utils.py:185 | a path is its directory part followed by its last segment, which holds no `/` |
| UrlUtils.SetExtensionKeepsDirectories | thumbnail_finder/utils.py:202-216 | `set_extension` rewrites only the last segment: the directory part is kept verbatim |
| UrlUtils.WithExtension | thumbnail_finder/utils.py:202-216 | a path without `/` is a single segment, which becomes the rewritten base |
| UrlUtils.StemDropsExtension | thumbnail_finder/utils.py:210-211 | the base without its extension is the whole segment when there is no `.`, otherwise it is what precedes the last `.` |
| UrlUtils.NewBaseHasNoSlash | thumbnail_finder/utils.py:210-214 | the rewritten last segment stays a single segment when the extension has no `/` |
| UrlUtils.SetExtensionSegments | thumbnail_finder/utils.py:208-215 | after `set_extension` the last segment is the rewritten base and the directory part is unchanged |
| UrlUtils.SetExtensionSets | thumbnail_finder/utils.py:202-216 | after setting a non-empty extension without `.` or `/`, `path_extension` returns it |
| UrlUtils.SetExtensionEmptyStrips | thumbnail_finder/utils.py:210-215 | setting the empty extension cuts exactly the last `.` and the extension after it |
| UrlUtils.SetExtensionEmptyKeepsPlainName | thumbnail_finder/utils.py:210-215 | setting the empty extension on a path whose last segment has no `.` changes nothing |
| UrlUtils.SetThenClearExtension | thumbnail_finder/utils.py:202-216 | setting an extension and then clearing it is the same as only clearing it |
| UrlUtils.CollapseSlashesUnchanged | thumbnail_finder/utils.py:244 | `replace('//', '/')` leaves a path unchanged exactly when it holds no `//` |
| UrlUtils.CollapseSlashes | thumbnail_finder/utils.py:244 | replacing `//` by `/` never lengthens the path |
| UrlUtils.TripleSlashBecomesDouble | thumbnail_finder/utils.py:244 | the replacement is not repeated: `///` becomes `//` |
| UrlUtils.NetlocOf | thumbnail_finder/utils.py:306-316 | the netloc is empty exactly without a host; it is the host followed by `:` and the port exactly when both are present, and the bare host otherwise |
| UrlUtils.UrlParser.Netloc | thumbnail_finder/utils.py:306-316 | the `netloc` getter starts with the hostname and is empty exactly when there is no hostname |
| UrlUtils.NormalHost | thumbnail_finder/utils.py:235-236 | with a port and a `:` in the host, the host becomes exactly the text before its first `:`; without a port, or without a `:`, it is unchanged; the result is a prefix of the host |
| UrlUtils.NormalHostIdempotent | thumbnail_finder/utils.py:235-236 | cutting the host a second time changes nothing |
| UrlUtils.UnparsedParts | thumbnail_finder/utils.py:231-246 | a tuple with a netloc always has a scheme (`http` when none was set), a given scheme is kept, and the netloc is built from the normalised host |
| UrlUtils.UnparseValues | thumbnail_finder/utils.py:232-246 | computes the `_unparse` tuple and the host written back, the query without a leading `?`, and a tuple that unparsing from the written-back host and scheme reproduces |
| UrlUtils.UnparseStable | thumbnail_finder/utils.py:231-246 | unparsing the state `_unparse` leaves behind gives the same tuple again |
| UrlUtils.ScanProblematic | thumbnail_finder/utils.py:292-302 | the scan accepts exactly a URL with no leading space where every problematic character is a no-break space after at least three `/` |
| UrlUtils.UrlParser.constructor | thumbnail_finder/utils.py:115-122 | the fields are those `urlparse` gives, the original URL and netloc are kept, and the query cache is empty |
| UrlUtils.UrlParser.CurrentQueryDict | thumbnail_finder/utils.py:160-177 | the dictionary `query_dict` would return never holds a key twice |
| UrlUtils.UrlParser.QueryDict | thumbnail_finder/utils.py:160-177 | the first call parses the query and caches it, later calls return the cache, and no other field changes |
| UrlUtils.UrlParser.UpdateQuery | thumbnail_finder/utils.py:152-158 | the cached dictionary becomes the current one updated with each pair in order; no other field changes |
| UrlUtils.UrlParser.SetExtension | thumbnail_finder/utils.py:202-216 | the path gets the new extension and keeps its directories, and no other field changes |
| UrlUtils.UrlParser.UnparseParts | thumbnail_finder/utils.py:231-246 | `_unparse` returns the tuple of the current state, fills the cache, cuts a port-carrying host at `:`, defaults the scheme to `http` when there is a netloc, and returns the same tuple when called again |
| UrlUtils.UrlParser.Unparse | thumbnail_finder/utils.py:218-229 | `unparse` is `urlunparse` of that tuple |
| UrlUtils.UrlParser.Equals | thumbnail_finder/utils.py:124-150 | two parsers are equal exactly when scheme, netloc, path, params and fragment agree and the query dictionaries are equal as unordered maps; as side effects of `_unparse` and `query_dict`, each parser's host is cut at `:` when it has a port, its scheme becomes `http` when it has a netloc but no scheme, and its query cache is filled; path, params, query, fragment and port stay as they were (also when a parser is compared with itself) |
| UrlUtils.ReorderedQueryStillEqual | thumbnail_finder/utils.py:124-150 | URLs differing only in the order of their query parameters compare equal |
| UrlUtils.UrlParser.WebSafeCheck | thumbnail_finder/utils.py:265-304 | a URL is unsafe if it starts with `///`, has no host but a `//` path, has a scheme but no host, has `@` in its netloc, has a scheme outside http/https/ftp/mailto, or has a problematic character |
| UrlUtils.UrlParser.IsWebSafeUrl | thumbnail_finder/utils.py:248-263 | after `unparse` has normalised the object and filled its query cache with the dictionary parsed from the query, both it and a parser of the unparsed string must pass; a `///` start, an `@` in the netloc or a problematic character always fails |
| UrlUtils.CoerceUrlToProtocol | thumbnail_finder/utils.py:36-41 | the URL is parsed, given the scheme, and unparsed |
| ThumbnailFinder.Utf8 | thumbnail_finder/thumbnail_finder.py:53 | a character encodes to one to four bytes, one exactly when it is below 128 |
| ThumbnailFinder.Utf8RoundTrip | thumbnail_finder/thumbnail_finder.py:53 | decoding the UTF-8 bytes of a character gives the character back |
| ThumbnailFinder.Escape | thumbnail_finder/thumbnail_finder.py:53 | a byte becomes `%` and its high and low upper-case hexadecimal digits, which read back as the byte |
| ThumbnailFinder.PercentEncode | thumbnail_finder/thumbnail_finder.py:53 | each byte becomes three characters, all below 127 |
| ThumbnailFinder.PercentEncodeBytes | thumbnail_finder/thumbnail_finder.py:53 | byte `i` becomes exactly the three characters from position `3i`: its `%XX` escape |
| ThumbnailFinder.PercentRoundTrip | thumbnail_finder/thumbnail_finder.py:53 | reading the `%XX` escapes back gives the bytes |
| ThumbnailFinder.Quote | thumbnail_finder/thumbnail_finder.py:53 | quoting a character gives 3 to 12 characters below 127, starting with `%` |
| ThumbnailFinder.QuoteDecodes | thumbnail_finder/thumbnail_finder.py:53 | `quote(c)` is the percent-encoding of the UTF-8 bytes of `c`: reading its escapes back gives those bytes, and they decode to `c` |
| ThumbnailFinder.CleanUrl | thumbnail_finder/thumbnail_finder.py:51-53 | the cleaned URL holds only characters below 127, is no shorter, and a URL already made of them is unchanged |
| ThumbnailFinder.CleanUrlChar | thumbnail_finder/thumbnail_finder.py:51-53 | a single character is kept when below 127 and replaced by `quote(c)` otherwise |
| ThumbnailFinder.CleanUrlConcat | thumbnail_finder/thumbnail_finder.py:51-53 | cleaning works character by character, in order |
| ThumbnailFinder.CleanUrlIdempotent | thumbnail_finder/thumbnail_finder.py:51-53 | cleaning a cleaned URL changes nothing |
| ThumbnailFinder.InitializeRequest | thumbnail_finder/thumbnail_finder.py:56-71 | there is a request exactly when the cleaned URL starts with `http://` or `https://`; it always carries the fixed User-Agent, carries gzip Accept-Encoding exactly when asked, carries a Referer exactly when one is given and non-empty, and carries no other header |
| ThumbnailFinder.ReadImageSize | thumbnail_finder/thumbnail_finder.py:101-108 | the probe stops at the first chunk boundary where the parser knows the size or fails, and every earlier boundary gave neither; with no size, the whole intact stream was read; a parser failure, or a read that breaks off, raises |
| ThumbnailFinder.FetchImageSize | thumbnail_finder/thumbnail_finder.py:88-113 | no size when the request gate refuses the URL or the open fails with URLError; any other open failure raises; otherwise the chunked probe's answer |
| ThumbnailFinder.YouTubeMatchesPrefixes | thumbnail_finder/thumbnail_finder.py:261 | the pattern accepts exactly the URLs starting with `http://` or `https://` followed by `youtube.com/watch`, `www.youtube.com/watch` or `youtu.be/` |
| ThumbnailFinder.YouTubeMatches | thumbnail_finder/thumbnail_finder.py:261 | a URL the video pattern accepts starts with `http://` or `https://` |
| ThumbnailFinder.ForUrl | thumbnail_finder/thumbnail_finder.py:140-144 | the oEmbed scraper is chosen exactly when it is enabled and the URL matches; otherwise the generic scraper, which records the URL's scheme |
| ThumbnailFinder.FindIndex | thumbnail_finder/thumbnail_finder.py:214 | `find` returns the first matching element, and finds nothing only when no element matches |
| ThumbnailFinder.FirstFound | thumbnail_finder/thumbnail_finder.py:203-208 | the `or` chain takes the element found by the first lookup that finds one |
| ThumbnailFinder.ScrapeOgUrl | thumbnail_finder/thumbnail_finder.py:200-210 | the answer exists exactly when the first Open Graph tag found has a non-empty `content`, and is that content resolved against the page |
| ThumbnailFinder.OgFirstTagDecides | thumbnail_finder/thumbnail_finder.py:203-210 | a `property="og:image"` tag decides alone: later tags are not consulted even when its content is empty |
| ThumbnailFinder.ScrapeThumbnailSpec | thumbnail_finder/thumbnail_finder.py:212-216 | the first `rel="image_src"` link raises when it has no `href`, and answers with its non-empty `href` resolved against the page |
| ThumbnailFinder.ImageUrls | thumbnail_finder/thumbnail_finder.py:164-166 | there is at most one image URL per element |
| ThumbnailFinder.ImageUrlsMembers | thumbnail_finder/thumbnail_finder.py:164-166 | a URL is extracted exactly when some `<img>` with a `src` resolves to it against the page URL |
| ThumbnailFinder.ImageUrlsConcat | thumbnail_finder/thumbnail_finder.py:164-166 | extraction keeps document order: the URLs of two consecutive parts of the document are those of the first, then those of the second |
| ThumbnailFinder.Candidates | thumbnail_finder/thumbnail_finder.py:223-228 | candidate `i` is extracted URL `i`: re-rooted on the page's scheme when it starts with `//`, unchanged otherwise |
| ThumbnailFinder.Score | thumbnail_finder/thumbnail_finder.py:229-248 | an image scores exactly when it has a size, at least 5000 square pixels and no side longer than twice the other; the score is ten times the area, or the bare area for a "sprite" URL (one tenth, kept exact) |
| ThumbnailFinder.Best | thumbnail_finder/thumbnail_finder.py:250-252 | the running maximum points at a candidate holding that score, and is 0 when none was taken |
| ThumbnailFinder.BestIsEarliestMaximum | thumbnail_finder/thumbnail_finder.py:221-252 | the chosen image has the largest score, no earlier image ties it, and nothing is chosen only when no image scores |
| ThumbnailFinder.ScoreCandidate | thumbnail_finder/thumbnail_finder.py:227-248 | one loop pass probes the protocol-coerced URL and scores it |
| ThumbnailFinder.FindLargestImageUrl | thumbnail_finder/thumbnail_finder.py:218-255 | the loop raises as soon as a probe raises, and otherwise returns the earliest best-scoring image, or raises when none scores |
| ThumbnailFinder.LargestImageChoice | thumbnail_finder/thumbnail_finder.py:218-255 | the heuristic always answers an image or raises, never nothing; it raises exactly when some probe raises or no image scores; otherwise its answer is a candidate no other candidate beats and no earlier one matches |
| ThumbnailFinder.LargestImage | thumbnail_finder/thumbnail_finder.py:218-255 | the largest-image heuristic answers with an image or raises, and an image it answers is one of the candidates |
| ThumbnailFinder.RunHeuristic | thumbnail_finder/thumbnail_finder.py:196 | running one heuristic gives that heuristic's outcome |
| ThumbnailFinder.ScrapePage | thumbnail_finder/thumbnail_finder.py:171-198 | no request gives None and a failed fetch raises; an image with content is its own thumbnail; a page that is not HTML, or is empty, gives None; an HTML page goes through the heuristics in order |
| ThumbnailFinder.PageOutcome | thumbnail_finder/thumbnail_finder.py:171-198 | a page scrape that answers or raises was given a URL that cleans to an http or https URL |
| ThumbnailFinder.HeuristicOrder | thumbnail_finder/thumbnail_finder.py:188-198 | the Open Graph answer wins; otherwise an `image_src` link answers or raises, so the images are then never probed; only then does the largest image decide |
| ThumbnailFinder.YouTubeOutcome | thumbnail_finder/thumbnail_finder.py:280-285 | the answer is the `thumbnail_url` of a non-empty object; an empty answer or a missing field gives None; a failed request or a non-empty non-object raises |
| ThumbnailFinder.GetThumbnailUrl | thumbnail_finder/thumbnail_finder.py:116-130 | `get_thumbnail_url` runs the scraper `for_url` picks, with width 600, and turns every exception into None |
| ThumbnailFinder.ThumbnailUrlOf | thumbnail_finder/thumbnail_finder.py:116-130 | there is a thumbnail URL exactly when the chosen scraper finds one, and it is that URL; a raise gives None |
| ThumbnailFinder.YouTubeUrlIsWebUrl | thumbnail_finder/thumbnail_finder.py:261 | a URL the video pattern accepts is an http or https URL, before and after cleaning |
| ThumbnailFinder.NonWebUrlHasNoThumbnail | thumbnail_finder/thumbnail_finder.py:56-60 | a URL that does not clean to http or https never gets a thumbnail |
| ThumbnailFinder.YouTubeNeedsOnlyOEmbed | thumbnail_finder/thumbnail_finder.py:140-142 | the answer for a video URL depends only on the oEmbed reply; changing the page fetch or the image stream does not change it |
| CleanStaticFiles.MatureMap | scripts/clean_static_files.py:50-56 | every stored key has its own name, comes from the listing and is mature; every mature key's name is stored |
| CleanStaticFiles.MatureFiles | scripts/clean_static_files.py:44-56 | the result holds exactly the names of keys last modified strictly before now minus one day |
| CleanStaticFiles.PairPrefix | scripts/clean_static_files.py:73 | the result is a prefix of both strings |
| CleanStaticFiles.PairPrefixLongest | scripts/clean_static_files.py:73 | every common prefix of the two strings is a prefix of the result |
| CleanStaticFiles.CommonPrefix | scripts/clean_static_files.py:73 | the result is a prefix of every path, and is empty for no paths |
| CleanStaticFiles.CommonPrefixLongest | scripts/clean_static_files.py:73 | every prefix shared by all the paths is a prefix of the result, so it is the longest |
| CleanStaticFiles.RepoStaticFiles | scripts/clean_static_files.py:59-78 | a directory that cannot be entered yields nothing; otherwise each listed path, in order, loses exactly the common prefix |
| CleanStaticFiles.SourceStaticFiles | scripts/clean_static_files.py:81-91 | the core repository's files come first, and every plugin's files are included |
| CleanStaticFiles.SourceStaticFilesMembers | scripts/clean_static_files.py:81-91 | a name is listed exactly when it is one of the core repository's files or one of some plugin's |
| CleanStaticFiles.SourceStaticFilesOrder | scripts/clean_static_files.py:88-90 | plugin `k`'s files come right after those of the core repository and of the plugins before it |
| CleanStaticFiles.SplitExtCases | scripts/clean_static_files.py:101 | a last segment without `.` has no extension; one not starting with `.` has the text from its last `.` |
| CleanStaticFiles.SplitExt | scripts/clean_static_files.py:101 | a non-empty extension starts with `.` and comes from a last segment holding a `.` |
| CleanStaticFiles.GeneratedNames | scripts/clean_static_files.py:94-104 | a name is generated exactly when it is an entry's file name or mangled name, or the `.gzip` variant of either for a `.css` or `.js` file name |
| CleanStaticFiles.GeneratedStaticFiles | scripts/clean_static_files.py:94-104 | the list holds between two and four names per entry (two always, two more for a `.css` or `.js` file) |
| CleanStaticFiles.LiveStylesheetNames | scripts/clean_static_files.py:107-112 | a stylesheet name is listed exactly when some subreddit with a static stylesheet has it |
| CleanStaticFiles.LiveStylesheets | scripts/clean_static_files.py:107-112 | at most one stylesheet name per subreddit |
| CleanStaticFiles.IgnoredPrefixes | scripts/clean_static_files.py:117-118 | there is one prefix per comma-separated piece, in order, which is that piece stripped; no prefix holds a comma or starts or ends with white space |
| CleanStaticFiles.StripInside | scripts/clean_static_files.py:118 | `strip` keeps only characters of the string, and the result neither starts nor ends with white space |
| CleanStaticFiles.Clean | scripts/clean_static_files.py:115-134 | a missing setting deletes nothing; otherwise the deleted names are exactly the mature ones that are neither reachable nor under an ignored prefix, each deleted once |
| CleanStaticFiles.CleanStaticFiles | scripts/clean_static_files.py:115-134 | no committed, generated or live-stylesheet name is ever deleted, the deletions are exactly mature minus reachable minus ignored, and none is repeated |
| CleanStaticFiles.EmptyPrefixProtectsEverything | scripts/clean_static_files.py:117-118 | an empty piece in the prefix list (an empty setting or a stray comma) protects every name |

## Left out

- The helpers these functions rely on are parameters, taken to be total:
  - `urlparse`, `urlunparse`, `urljoin`, `quote_plus` and `unquote_plus`;
  - the query-string escaping `url_escape(_force_unicode(...))`.
  - `unquote_plus`, `_force_unicode` and the bare `urlunparse` are not defined or imported in `thumbnail_finder/utils.py`. As written, a call to them would raise NameError. The model treats them as the library functions they name, so the UnicodeDecodeError branch of `query_string` is not reached.
  - A ValueError raised by `urlparse` is not modelled.
- A port of 0 is treated like no port, and an empty hostname like None.
- UrlUtils.NormalHost: a None hostname is written as "". With a port, `":" in self.hostname` (`thumbnail_finder/utils.py:235`) then raises TypeError, as for `http://:80/`. The model instead returns the hostname unchanged.
- UrlUtils.UrlParser.UnparseParts: returns a tuple where `_unparse` raises TypeError for a None hostname with a port (`thumbnail_finder/utils.py:235`).
- UrlUtils.UrlParser.Unparse: returns a URL where `unparse` raises that TypeError.
- UrlUtils.UrlParser.Equals: returns a verdict where `__eq__` raises that TypeError from `_unparse`.
- UrlUtils.UrlParser.IsWebSafeUrl: returns a verdict where `is_web_safe_url` raises that TypeError from `unparse`.
- UrlUtils.CoerceUrlToProtocol: returns a URL where `coerce_url_to_protocol` raises that TypeError.
- `username` and `password` are not modelled; only the hostname and port feed the netloc.
- `url_escape` is the `quotePlus` parameter of `UrlLib`; its UTF-8 encoding before escaping is not modelled.
- `UrlParser.base_url` and `__repr__` are not modelled; no core operation calls them.
- `lower()`, `strip()` and the `\d` of `strip_www` are modelled on ASCII only.
- `TimeoutFunction`, `memoize` and the 30-second timeout are not modelled: they involve signals, timing and caching. A timeout would raise, and `get_thumbnail_url` already turns that into None.
- `fetch` is a plain network read and is not modelled.
- `_fetch_url`'s gzip decoding, HTML parsing, PIL's image parser and the oEmbed HTTP request are the fields of `Network`. A decoding or parsing error is the `PageFailed`/`OEmbedFailed` reply.
- An image stream is a byte sequence and a flag telling whether reading it breaks off at its end (IncompleteRead and the like). A break-off, an open error other than URLError and a PIL feed error all raise; that aborts `_find_largest_image_url`, and `get_thumbnail_url` turns it into None. Closing the response is not modelled.
- `soup.find` is modelled on a flat list of elements in document order.
  - Attribute names are taken as already lower-cased.
  - `rel` tokens are split on spaces only.
  - oEmbed field values other than strings and null are not modelled.
- ThumbnailFinder.Score: scores are ten times the Python areas. Every comparison is then exact and ordered the same way, and floating-point division is not modelled.
- ThumbnailFinder.ScrapePage: logging calls are not modelled. The `'Max URL ' + max_url` concatenation matters: it raises when no image scores, and that exception is modelled as `Raised`.
- `get_live_subreddit_stylesheets` reads the subreddit query. That query, `fetch_things2` and `PluginLoader` are replaced by the list of subreddits and the listings they would give.
- The S3 bucket, `key.delete()`, `subprocess`/git and `os.chdir` are inputs and outputs.
  - Timestamps arrive already parsed, in microseconds; `strptime` is not modelled.
  - The deletions are the returned list, and their order is left open, as Python 2 dictionary order is.
- CleanStaticFiles.CommonPrefix: defined directly as the longest common prefix. `os.path.commonprefix` compares only the smallest and largest path; that gives the same string, but the equivalence is not proved here.
- `query_dict` (`thumbnail_finder/utils.py:170-177`) drops no non-empty parameter: every one is unquoted with `unquote_plus`, here a total parameter.
- A `rel="image_src"` link without `href` raises, and so does an oEmbed reply that is not JSON; either one ends the whole scrape with None. The model has `Raised` for both.
