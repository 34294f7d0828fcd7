# SurfFS core in Dafny

SurfFS is a Linux file system that shows a website as a directory tree. Mounting it on a
URL makes the mount root stand for that page. Every directory stands for one web page and
holds four special files:

- `page.html` holds the page body;
- `url` holds its address;
- `status` holds "ok", "error" or "unknown";
- `loading.log` holds what happened while the page was fetched and its links were checked.

Each accepted outbound link of the page becomes a sub-directory, named by the link's title
plus a `_linkN` suffix. A page that already has a directory somewhere in the tree is shown
as a symbolic link to that directory. Pages are fetched over plain HTTP the first time a
directory is looked into, and are then kept in a page cache.

This project models the sequential core under the kernel glue, file by file:

| module | file | what it holds |
|---|---|---|
| `Helpers` | `helpers.dfy` | the growable string `sfs_string`, as a class over a `char` array |
| `CString` | `cstring.dfy` | `strstr` as a first-occurrence search (a helper) |
| `Parser` | `parser.dfy` | the permissive scanner: spaced token search, `trim`, title cleaning, href and title extraction, `<a>` blocks, URL splitting |
| `Socket` | `socket.dfy` | the request text, the response/payload split, and the outcome of `surffs_get_http` |
| `WebTypes` | `webtypes.dfy` | links, addresses and pages |
| `Internet` | `internet.dfy` | the protocol whitelist, link checks, `_linkN` numbering, and `obtain_webpage` |
| `WebPages` | `webpages.dfy` | the global page cache |
| `InodeTypes`, `Sb` | `inodetypes.dfy`, `sb.dfy` | inode kinds; the discovery ledger; the mount-time checks and root registration |
| `Dentry` | `dentry.dfy` | tree-path strings |
| `Inode` | `inode.dfy` | the special-file table, lookup, readdir by position, and clipped reads |

Code that changes things in place is modelled by classes and methods:

- an `sfs_string` is a class `SfsString` with `data`, `textlen` and `memlen`;
- the page cache and the ledger are classes whose `seq` fields the methods reassign;
- `dir_context` is a class with a position and a sink;
- an inode and a page are classes;
- `trim` and `normalize_title` work on the string's array in place.

Each loop is a `while` loop. Each method is proved against a specification function of
its inputs, and the properties the code promises are proved about those functions as
lemmas. A kernel dentry is modelled by its chain: the names from the child of the mount
root down to the dentry. The network is a parameter, `NetOutcome`, that says what the
socket calls produced.

## Model

| member | source | states |
|---|---|---|
| Helpers.GrownMemlen | src/surffs_helpers.c:82-124 | after an append of n bytes the capacity is unchanged exactly when the text, the n bytes and the NUL fit; otherwise it is exactly textlen + n + 1 |
| Helpers.SfsString.Create | src/surffs_helpers.c:12-26 | empty source: -EINVAL and a zeroed string; otherwise the text is the source and memlen is its length + 1 |
| Helpers.SfsString.CreatezIn | src/surffs_helpers.c:28-40 | alloc_len 0: -EINVAL and a zeroed string; otherwise empty text in a buffer of exactly alloc_len bytes |
| Helpers.SfsString.Expandmem | src/surffs_helpers.c:49-59 | -EINVAL with nothing changed unless the new size exceeds memlen; on success a fresh buffer of exactly that size; the text is kept either way |
| Helpers.SfsString.Ncat | src/surffs_helpers.c:82-102 | the text becomes the old text followed by exactly the first len bytes; textlen grows by len; the capacity follows the exact-fit rule; textlen + 1 <= memlen is kept |
| Helpers.SfsString.Cat | src/surffs_helpers.c:104-124 | the text becomes the old text followed by the source, with the same growth rule and the invariant kept |
| Helpers.SfsString.Clear | src/surffs_helpers.c:145-153 | memlen 0: -EINVAL; otherwise the text becomes empty; the buffer and memlen are kept |
| Helpers.SfsString.Set | src/surffs_helpers.c:162-170 | memlen 0: -EINVAL; otherwise the text becomes the source (clear then cat) |
| Helpers.SfsString.InsertBegin | src/surffs_helpers.c:126-143 | the text becomes prefix + old text, but an empty old text is refused with -EINVAL and left unchanged |
| Helpers.SfsString.Free | src/surffs_helpers.c:155-160 | the buffer is released and both lengths are 0 |
| Parser.FirstAnyOf | src/surffs_parser.c:16-34 | the first index from `from` holding one of the characters: nothing before it is one, and none is found only if no later character is one |
| Parser.FindAnyOf | src/surffs_parser.c:27-34 | the scan of `find_anyof` finds exactly `FirstAnyOf` |
| Parser.SkipSpaces | src/surffs_parser.c:8-14 | the end of the run of ' ', '\n', '\r', '\t' that starts at i |
| Parser.SkipWhitespace | src/surffs_parser.c:61 | the whitespace loop stops exactly at `SkipSpaces` |
| Parser.MatchTail | src/surffs_parser.c:57-65 | matching the patterns from p on, each after optional whitespace, ends at or before the end of the text |
| Parser.AttemptAt | src/surffs_parser.c:53-65 | one round of the search: a hit starts at an occurrence of the first pattern, at or after `from`, and the rest matches up to its end; a miss resumes at or after the first pattern's end |
| Parser.SpacedSearch | src/surffs_parser.c:36-73 | fewer than two patterns give no match; a match starts at an occurrence of the first pattern, at or after `from` |
| Parser.MatchTailGapped | src/surffs_parser.c:57-65 | a successful tail match is the remaining patterns in order, with only whitespace before each |
| Parser.FoundTokens | src/surffs_parser.c:53-65 | an occurrence of the first pattern followed by a successful tail match is the tokens with only whitespace between them |
| Parser.SpacedSearchSound | src/surffs_parser.c:36-73 | a found span is exactly the patterns in order with only whitespace between them, and it ends right after an occurrence of the last pattern |
| Parser.HitSound | src/surffs_parser.c:53-65 | the same for one successful round |
| Parser.MatchTailEndsWithLast | src/surffs_parser.c:57-65 | a successful tail match ends right after an occurrence of the last pattern |
| Parser.FirstSpacedMatch | src/surffs_parser.c:36-73 | an independent reference: the least position at or after `from` where the first pattern and then the others, each after whitespace, occur, with the end of that match |
| Parser.FirstSpacedMatchIsFirst | src/surffs_parser.c:36-73 | that match is the least one, and there is none exactly when no full match starts anywhere from `from` on |
| Parser.FirstSpacedSkip | src/surffs_parser.c:53-55 | positions where no full match starts do not change the first match |
| Parser.GappedMatchTail | src/surffs_parser.c:57-65 | conversely to MatchTailGapped, patterns in order with only whitespace before each are read back by the inner loop up to their end |
| Parser.TokensMatchAt | src/surffs_parser.c:53-65 | the patterns in order with whitespace between, anywhere in the text, are a full match where they start (so the reference does not depend on the greedy scan) |
| Parser.StoppedTailLacksLead | src/surffs_parser.c:57-65 | a tail that stops has read no copy of the lead character when no later pattern holds it |
| Parser.LeadStopSkips | src/surffs_parser.c:53-65 | no full match starts at a lead character whose tail stops, nor before where it stopped |
| Parser.SpacedSearchFindsFirst | src/surffs_parser.c:36-73 | when the first pattern is one non-blank character that no later pattern holds, `find_spaced_patterns` returns exactly the first full match, and none when there is none |
| Parser.MatchRemaining | src/surffs_parser.c:57-65 | the inner loop over patterns 1.. computes `MatchTail` |
| Parser.SearchAttempt | src/surffs_parser.c:51-66 | one pass of the outer loop either settles the result or moves strictly forward to a position with the same result, which is how a failed partial match resumes the search |
| Parser.FindSpacedPatterns | src/surffs_parser.c:36-73 | `find_spaced_patterns` returns exactly `SpacedSearch` |
| Parser.TrimStart | src/surffs_parser.c:86 | the end of the leading run of set characters |
| Parser.TrimEnd | src/surffs_parser.c:87 | the start of the trailing run of set characters above the kept start; for a set without the byte 0x01, the character before it is not in the set (the loop's `(*end-1)` test stops it after removing a 0x01) |
| Parser.Trimmed | src/surffs_parser.c:77-104 | the trimmed text is no longer than the input; for a set without 0x01 it neither starts nor ends with a set character |
| Parser.TrimmedInfix | src/surffs_parser.c:77-104 | the trimmed text is a contiguous infix of the input |
| Parser.TrimmedUnique | src/surffs_parser.c:77-104 | for a set without 0x01 (every caller's set), trimming removes exactly the maximal leading and trailing runs of set characters, so an all-set text trims to empty |
| Parser.TrimmedIdempotent | src/surffs_parser.c:77-104 | for a set without 0x01, trimming twice is trimming once |
| Parser.ScanLeading | src/surffs_parser.c:86 | the leading scan finds `TrimStart` |
| Parser.ScanTrailing | src/surffs_parser.c:87 | the trailing scan finds `TrimEnd` |
| Parser.ShiftToFront | src/surffs_parser.c:99-101 | the kept part is moved to index 0 |
| Parser.Trim | src/surffs_parser.c:77-104 | in place, in the same buffer, the text becomes `Trimmed` of the old text |
| Parser.MarkTags | src/surffs_parser.c:231-244 | the mark pass keeps the length |
| Parser.Unmarked | src/surffs_parser.c:246-252 | squeezing out the markers never lengthens the text |
| Parser.MarkThenUnmark | src/surffs_parser.c:231-252 | the two passes together strip every span from '<' through the next '>' (an unclosed one runs to the end) and replace illegal characters by ' ' |
| Parser.StripTagsSafe | src/surffs_parser.c:209-252 | the stripped title holds no '/', no '<' and no byte below 0x20 or from 0x80 on, and is no longer than the input |
| Parser.NormalizedTitleSafe | src/surffs_parser.c:216-262 | the normalized title holds no '/', no '<' and no byte below 0x20 or from 0x80 on, and is never longer than the input |
| Parser.StripTagsNoTag | src/surffs_parser.c:231-252 | a title without '<' keeps its length, and each character is only made legal |
| Parser.MarkPass | src/surffs_parser.c:231-244 | the temporary array holds `MarkTags` of the title |
| Parser.UnmarkPass | src/surffs_parser.c:246-252 | the title array receives `Unmarked` of the temporary one |
| Parser.NormalizeTitle | src/surffs_parser.c:216-262 | in place, the title becomes `NormalizedTitle`: tags stripped, illegal characters made ' ', then spaces trimmed |
| Parser.HostStart | src/surffs_parser.c:123-129 | the host starts just past the first "://", or at 0 without one |
| Parser.SplitUrlShape | src/surffs_parser.c:131-154 | the host holds no '/', and the path is empty or starts with '/' |
| Parser.SplitUrlProtocol | src/surffs_parser.c:123-129 | the protocol is exactly the text before the first "://", and empty without one |
| Parser.SplitUrlRoundTrip | src/surffs_parser.c:108-162 | protocol "://" host path splits back into the protocol, host and path it was built from, under either policy |
| Parser.SplitUrlBareName | src/surffs_parser.c:137-154 | a name with no '/' gives path "/name" and no host under PREFER_PATH, and host "name" and path "/" under PREFER_HOST |
| Parser.CopyProtocol | src/surffs_parser.c:123-129 | the protocol string receives the protocol, and the host position is returned |
| Parser.CopyHostPath | src/surffs_parser.c:131-148 | host and path receive the policy-dependent split of the remainder |
| Parser.CopySplit | src/surffs_parser.c:131-136 | with a '/', the host is the text before it and the path the text from it |
| Parser.CopyBoth | src/surffs_parser.c:137-142 | PREFER_HOST without a '/' gives the remainder as host and "/" as path |
| Parser.MakePathAbsolute | src/surffs_parser.c:150-154 | a non-empty path without a leading '/' gains one; other paths are kept |
| Parser.ClearUrlParts | src/surffs_parser.c:119-121 | all three strings are emptied, or -EINVAL when one has no buffer |
| Parser.ExtractUrlParams | src/surffs_parser.c:108-162 | -EINVAL when a string has no buffer; otherwise the three strings hold exactly `SplitUrl` of the URL under the policy |
| Parser.HrefValueStart | src/surffs_parser.c:182-191 | the value starts at the first non-whitespace character after `href ws =`; its terminator is that quote when it is a quote and ' ' otherwise; there is none exactly when that character is '>' or the text ends first |
| Parser.HrefValueSpan | src/surffs_parser.c:182-197 | the raw value runs from the value's first character to the first '>' or terminator after it, neither of which occurs inside; there is none exactly when the value does not start or no '>' or terminator follows |
| Parser.HrefSpan | src/surffs_parser.c:164-197 | the raw href is non-empty, holds no '>' and ends before the end of the text |
| Parser.FirstHrefMatch | src/surffs_parser.c:166-180 | a match of "href", whitespace, '=' at or after a position, with the end of its '=' |
| Parser.FirstHrefMatchIsFirst | src/surffs_parser.c:166-180 | that match is the first one, and there is none exactly when no match exists |
| Parser.FirstHrefSkip | src/surffs_parser.c:179-180 | positions where no `href =` starts do not change the first match |
| Parser.HrefAttempt | src/surffs_parser.c:25-65 | one attempt from the first "href" hits when '=' follows after whitespace and otherwise resumes at that whitespace's end |
| Parser.NoHrefBefore | src/surffs_parser.c:25-65 | no `href =` starts inside a failed "href" or the whitespace after it |
| Parser.SpacedSearchFindsFirstHref | src/surffs_parser.c:179-180 | with the patterns "href", "=", `find_spaced_patterns` finds exactly the first `href =` match, and none when there is none |
| Parser.HrefSpanFirstMatch | src/surffs_parser.c:164-197 | the raw href is the value span after the first `href =` of the text, or none without one |
| Parser.TrimmedKeepsNoGt | src/surffs_parser.c:197-200 | trimming a value without '>' leaves one without '>' that neither starts nor ends with ' ', '"' or '\'' |
| Parser.TrimmedSpanShape | src/surffs_parser.c:197-200 | the same for a span of the text that holds no '>' |
| Parser.HrefOfShape | src/surffs_parser.c:164-207 | an extracted href holds no '>' and neither starts nor ends with ' ', '"' or '\'' |
| Parser.ScanHrefValue | src/surffs_parser.c:182-191 | the scan for the start of the value computes `HrefValueStart` |
| Parser.FindHrefValueSpan | src/surffs_parser.c:182-197 | the scan for the terminator computes `HrefValueSpan` |
| Parser.FindHrefSpan | src/surffs_parser.c:164-197 | the pattern search and the value scan compute `HrefSpan` |
| Parser.ExtractLinkHref | src/surffs_parser.c:164-207 | -EINVAL without a buffer; otherwise the href string holds `HrefOf` of the text: empty when the value is missing or unterminated, else the trimmed value |
| Parser.TitleSpan | src/surffs_parser.c:264-292 | the raw title starts just past a '>' and ends before the end of the text |
| Parser.TitleSpanSound | src/surffs_parser.c:264-292 | the raw title starts right after the FIRST '>' of the text; a full closing tag "<", "/a", ">" (only whitespace between) starts at its end, and none starts inside it |
| Parser.TitleSpanFirstClose | src/surffs_parser.c:278-284 | after the first '>' at g, the title is g + 1 up to the FIRST full closing `a` tag from g + 1 on, and there is none without such a tag |
| Parser.TitleSpanNeedsGt | src/surffs_parser.c:278-279 | a text without '>' has no title |
| Parser.TitleSpanComplete | src/surffs_parser.c:278-284 | any '>' followed later by a full closing `a` tag gives a title, ending no later than that tag |
| Parser.FindTitleSpan | src/surffs_parser.c:264-292 | the searches compute `TitleSpan` |
| Parser.ExtractLinkTitle | src/surffs_parser.c:264-292 | -EINVAL without a buffer; otherwise the title string holds the raw title (after the first '>', up to the first full closing `a` tag), or is empty when a '>' or a closing tag is missing |
| Parser.HtmlBlock | src/surffs_parser.c:355-392 | a block lies at or after the position and is non-empty |
| Parser.HtmlBlockSound | src/surffs_parser.c:355-392 | a block starts with the tokens "<" and the tag (with no word boundary after the tag, so "<abbr" opens "a"), ends with "<", "/", the tag and ">", and its closing tag starts after its opening one ends |
| Parser.HtmlBlockFirst | src/surffs_parser.c:355-392 | for a tag without '<' (the caller passes "a"), the block runs from the FIRST full opening tag at or after the position to the end of the FIRST full closing tag from the opening tag's end on |
| Parser.ExtractHtmlBlock | src/surffs_parser.c:355-392 | without a complete block the block is empty and the position is kept; otherwise the block text is exactly the block and the position moves to just past it, strictly forward |
| Parser.LinkFromShape | src/surffs_parser.c:297-350 | no title gives an empty link; no URL leaves the link with only its title; otherwise the URL is split with PREFER_PATH, so the host holds no '/' and the path is empty or absolute |
| Parser.LinkParamsShape | src/surffs_parser.c:297-350 | a parsed link's title holds only safe characters with no leading or trailing space; its URL holds no '>'; the host holds no '/'; the path is empty or absolute |
| Parser.ReadLinkTitle | src/surffs_parser.c:308-312 | the title is the normalized raw title |
| Parser.ReadLinkHref | src/surffs_parser.c:322-323 | the URL is `HrefOf` the block |
| Parser.ReadUrlParts | src/surffs_parser.c:330-334 | the URL is split with PREFER_PATH |
| Parser.ExtractHtmlLinkParams | src/surffs_parser.c:297-350 | the link holds exactly `LinkParams` of the block, and 0 is returned |
| Internet.ProtocolListedIff | src/surffs_internet.c:14-26 | the table walk finds the protocol exactly when it is in the table |
| Internet.ValidProtocols | src/surffs_internet.c:12-26 | a protocol is valid exactly when it is empty or "http" |
| Internet.CheckLinkIff | src/surffs_internet.c:28-109 | a link is accepted exactly when it has a title and a URL, no or a supported protocol, no host or the parent's host, and a path other than the parent's (an empty path is not refused); and exactly when the check logs nothing |
| Internet.CheckLinkOrder | src/surffs_internet.c:40-103 | the tests are made in order: an empty title before an empty URL, that before any unsupported protocol, and that before a foreign host (even when the path repeats the parent's) |
| Internet.NumberedTitle | src/surffs_internet.c:111-128 | the numbered title starts with the title, followed by "_link" and at least one digit |
| Internet.NumberedTitlesDistinct | src/surffs_internet.c:111-128 | two different numbers never give the same numbered title, whatever the titles |
| Internet.HarvestShape | src/surffs_internet.c:130-197 | the new links go in front of the old ones, newest first; they are the accepted candidates numbered upward from n with no gaps; n grows by their count |
| Internet.HarvestCount | src/surffs_internet.c:147-189 | n, and the length of the list, grow by exactly the number of accepted candidates; rejected ones consume no number |
| Internet.HarvestLogGrows | src/surffs_internet.c:147-189 | the log is only appended to |
| Internet.NumberedDistinct | src/surffs_internet.c:162-181 | numbered links have pairwise distinct titles |
| Internet.HarvestTitlesDistinct | src/surffs_internet.c:130-197 | the links a page gains have pairwise distinct titles, so every sub-directory name is unique |
| Internet.HarvestIgnoresLog | src/surffs_internet.c:147-189 | which links are kept does not depend on the log |
| Internet.VisitBlock | src/surffs_internet.c:150-188 | one `<a>` block is parsed, checked and, if accepted, numbered and put at the head of the list |
| Internet.HarvestStep | src/surffs_internet.c:147-189 | one loop pass either finds no further block (nothing left to harvest) or moves strictly forward with the harvest of the rest unchanged |
| Internet.MakeHtmlLinks | src/surffs_internet.c:130-197 | starting from n = 1, the links and log are `HarvestAll` of the `<a>` blocks in document order |
| Internet.ObtainWebpage | src/surffs_internet.c:199-246 | status other than NEED_GET: -EINVAL, page unchanged; else address and full URL (host + path) are set; a fetch error leaves NEED_GET and the links; no payload gives HTTP_ERROR, "error" and no new links; a payload gives OK, "ok" and the harvested links; the page's log (the loading.log file) gains what `surffs_get_http` wrote and, with a payload, what the link harvest wrote after it |
| Internet.FetchInto | src/surffs_internet.c:220-226 | the page receives the response, the payload offset and the log `surffs_get_http` leaves, and keeps its other fields; a payload comes exactly when the exchange succeeded and lies inside the response |
| Internet.HarvestPage | src/surffs_internet.c:235-241 | the links and log become the harvest of the body's `<a>` blocks from number 1, and the page is marked OK |
| Socket.PayloadStart | src/surffs_socket.c:286-342 | a payload starts right after an occurrence of CRLF CRLF and before the end of the response |
| Socket.PayloadStartSound | src/surffs_socket.c:303-334 | a payload implies "200 OK" occurs somewhere and that the separator before it is the first CRLF CRLF |
| Socket.PayloadStartComplete | src/surffs_socket.c:303-336 | "200 OK" anywhere plus a first CRLF CRLF that does not end the text give the payload just past it, and the log says it was extracted |
| Socket.RequestRoundTrip | src/surffs_socket.c:105-133 | a request names exactly the path and host it was built from ("GET " path " HTTP/1.1", then "Host: " host), when neither holds a line break |
| Socket.ParseRequestLines | src/surffs_socket.c:114-122 | the request line and Host line are read back whatever follows them |
| Socket.MakeRequest | src/surffs_socket.c:105-133 | -EINVAL without a buffer; otherwise the request text is `RequestText` (LF line ends and the fixed header lines) and the log gains the request |
| Socket.BuildRequest | src/surffs_socket.c:114-123 | the three appends to a cleared request leave exactly `RequestText` |
| Socket.Transfer | src/surffs_socket.c:135-279 | a short send gives 0, no response and no payload; a receive error gives its code and no payload; a full reply gives 0 and the payload split; the log gains the send error, nothing, or the received byte count and the payload verdict |
| Socket.Exchange | src/surffs_socket.c:365-378 | once connected: the request is built, sent and its reply split; there is a payload exactly when all of it was sent, a reply came and a payload was found; the log gains the request and then what the transfer wrote |
| Socket.GetHttp | src/surffs_socket.c:344-391 | there is a payload exactly when connecting, sending and receiving worked and the reply splits; connect and send failures return 0 with no payload; the log gains, case by case, the connect error, or the connect line and the request followed by the send error, by nothing on a receive error, or by the received byte count and the payload verdict |
| Socket.HttpLogConnected | src/surffs_socket.c:344-391 | the log of a connected fetch, written out for the send error, the receive error and the full reply |
| WebTypes.WebPage.Body | src/surffs_webpages.h:53-54 | the body is the response from the payload offset on, or nothing without a payload |
| WebTypes.WebPage.Alloc | src/surffs_webpages.c:218-246 | a new page has status NEED_GET, status text "unknown", empty buffers and no links |
| WebPages.PageCache.constructor | src/surffs_webpages.c:9 | the cache starts empty |
| WebPages.PageCache.Find | src/surffs_webpages.c:11-45 | the first page in list order whose address equals (path, host and ip string-equal), or null exactly when none does |
| WebPages.PageCache.Add | src/surffs_webpages.c:47-53 | the page goes to the head of the list |
| WebPages.FetchPage | src/surffs_webpages.c:71-80 | a new page is fetched for the address; on success it is valid, has that address and is no longer NEED_GET; on failure no page is returned |
| WebPages.PageCache.Get | src/surffs_webpages.c:57-84 | a hit returns the cached page and changes nothing; a miss fetches a fresh page for the address and caches it only if the fetch returned 0; at most one page per address is kept |
| WebPages.PageCache.FreeAll | src/surffs_webpages.c:276-295 | the cache and every page's link list are left empty |
| InodeTypes.SurfInode.Create | src/surffs_inode.c:77-87 | a new inode has its kind, no page, and two distinct empty 64-byte strings |
| Sb.LookupFirst | src/surffs_sb.c:275-300 | a lookup finds a value exactly when some entry has the key, and then it is the value of the first such entry |
| Sb.LookupView | src/surffs_sb.c:275-300 | lookups read the map the ledger stands for |
| Sb.AddAfterMissKeepsUnique | src/surffs_sb.c:302-328 | adding a key that a lookup missed keeps every key recorded at most once; add itself checks nothing |
| Sb.AddThenLookup | src/surffs_sb.c:284-323 | after adding (k, v), k finds v and every other key finds what it found before |
| Sb.Ledger.constructor | src/surffs_sb.c:134 | the ledger starts empty |
| Sb.Ledger.Find | src/surffs_sb.c:275-300 | `find_discovered_path` returns the lookup of the key |
| Sb.Ledger.Add | src/surffs_sb.c:302-328 | an empty key or value gives -EINVAL with nothing added; otherwise the entry goes at the head, with no check for an existing key, and the key then finds the value |
| Sb.SuperInfo.constructor | src/surffs_sb.c:124-134 | a zeroed superblock info with an empty ledger |
| Sb.PreferHostPathNonEmpty | src/surffs_parser.c:137-154 | under PREFER_HOST the split path is never empty |
| Sb.CheckMount | src/surffs_sb.c:136-161 | the mount is accepted exactly when the PREFER_HOST split gives no or the "http" protocol and an ip is given; otherwise -EINVAL; the root address is the ip with the split host and path |
| Sb.RegisterRoot | src/surffs_sb.c:170-186 | the root inode is a directory whose web path is the root path, and the ledger gains the root path with tree path "/" |
| Sb.FillSuper | src/surffs_sb.c:110-201 | success exactly on a valid mount; on failure no superblock info is kept; on success the root address, the mount string, a ledger of just (root path, "/") and a root directory inode |
| Dentry.LastSlash | src/surffs_dentry.c:30-34 | the index of the last '/', or none when there is none |
| Dentry.ReversePath | src/surffs_dentry.c:19-55 | the buffer receives the '/'-separated segments from last to first, each as "/" + segment, with empty segments dropped (so empty input gives empty output); -EINVAL without a buffer |
| Dentry.ReversedCollected | src/surffs_dentry.c:57-88 | reversing the names collected from the dentry up gives "/" and each name, from the root down |
| Dentry.GetRelativeDentryPath | src/surffs_dentry.c:57-88 | the path receives the reversed collection of names from the dentry up to the child of the root |
| Dentry.RelativeDentryPath | src/surffs_dentry.c:57-88 | the path is "" for the root, and "/" + first name + the path of the rest below it |
| Dentry.SplitTreePathInverse | src/surffs_dentry.c:72-81 | since names are non-empty and hold no '/', a tree path splits back into exactly the names it was made of |
| Dentry.PathToRoot | src/surffs_dentry.c:90-112 | "" for depth 0, and 3d - 1 characters for d >= 1 (d copies of "../" without the last '/') |
| Dentry.PathToRootStep | src/surffs_dentry.c:90-112 | one level deeper puts one more "../" in front: "..", "../..", and so on |
| Dentry.GetRelativePathToRoot | src/surffs_dentry.c:90-112 | -EINVAL without a buffer; otherwise the path receives `PathToRoot` of the depth |
| Dentry.ReversedPathSlash | src/surffs_dentry.c:30-48 | the segment after the last '/' comes first |
| Inode.SpecialFilesTable | src/surffs_inode.c:162-171 | the special files are page.html, url, status and loading.log, in that order, each with its kind, and there are 4 |
| Inode.FindSpecialFile | src/surffs_inode.c:344-346 | the table scan finds the kind of the name, or nothing |
| Inode.UntilNul | src/surffs_inode.c:501-506 | the text a C string function sees: the prefix before the first NUL |
| Inode.FileSizeOfSource | src/surffs_inode.c:173-194 | url, status and loading.log report the length of what a read finds; page.html reports the body length (0 without a payload), which equals what a read finds unless the body holds a NUL |
| Inode.DefineReadingSource | src/surffs_inode.c:483-525 | no page or a non-file kind: -EINVAL; page.html without payload: no source; otherwise the text behind the file |
| Inode.LinkPathFirst | src/surffs_inode.c:137-146 | the web path found for a name is the path of the first link in list order with that title, or none when no title matches |
| Inode.GetWebpathByDentryName | src/surffs_inode.c:121-154 | a directory without a page gives -EINVAL; otherwise 0 and the first matching link's path, or none |
| Inode.ObtainInodeWebpage | src/surffs_inode.c:297-330 | an empty web path gives -EINVAL; on success the inode's page is cached and has the root ip and host with the inode's web path; a cached page changes nothing; errors change nothing |
| Inode.LookupSpecialFile | src/surffs_inode.c:196-222 | a new inode of the special kind, sharing the directory's page, with the size of its source |
| Inode.LookupSubdir | src/surffs_inode.c:224-295 | no page: -EINVAL; no matching link: no inode; a ledger hit: a symlink to relative-to-root + the recorded path, ledger unchanged, no fetch; a miss: a directory with the link's web path and no page, and the ledger gains (web path, this dentry's tree path) |
| Inode.MakeSymlink | src/surffs_inode.c:260-270 | the link target is the climb to the mount root followed by the recorded path |
| Inode.MakeSubdir | src/surffs_inode.c:272-285 | a new directory with the web path and no page, recorded in the ledger; an empty web path or tree path gives -EINVAL |
| Inode.Lookup | src/surffs_inode.c:332-349 | the page is obtained first; a special name gives its special file; any other name goes to the link lookup; a cached page is left unchanged |
| Inode.DentryTreePathRecorded | src/surffs_inode.c:272-285 | the ledger records a new directory at the tree path of its dentry |
| Inode.Recorded | src/surffs_sb.c:181-186 | what the ledger records for a dentry starts with '/' ("/" for the root) |
| Inode.DescendResolves | src/surffs_dentry.c:57-88 | a recorded tree path, read from the mount root, leads back to its dentry |
| Inode.ClimbResolves | src/surffs_dentry.c:90-112 | the "../" climb from a dentry d levels down reaches the mount root |
| Inode.NestedLinkResolves | src/surffs_inode.c:260-270 | a symlink made below the mount root leads to the directory recorded for the page |
| Inode.TargetClimbs | src/surffs_inode.c:260-270 | below the root, the link target is d copies of "../" followed by the recorded path without its '/' |
| Inode.RootLinkEscapes | src/surffs_inode.c:260-270 | as written, a symlink made in the mount root gets the recorded path itself, which starts with '/' and leads out of the mount |
| Inode.CorrectedLinkTarget | src/surffs_inode.c:260-270 | the intended target: as written below the root, "." + the recorded path in the root |
| Inode.LinkResolves | src/surffs_inode.c:260-270 | with the intended target, every symlink leads to the directory recorded for the page |
| Inode.RootLinkResolves | src/surffs_inode.c:260-270 | in the root, "." + the recorded path leads to the recorded directory |
| Inode.DirContext.constructor | src/surffs_inode.c:453-481 | a context at a given position with room for a given number of entries |
| Inode.DirContext.Actor | src/surffs_inode.c:378-383 | the sink takes an entry while it has room and refuses the first one it has no room for |
| Inode.ListingPositions | src/surffs_inode.c:351-481 | "." and ".." at 0 and 1; special file n at 2 + n; link i, in list order, at 6 + i; every entry at the index equal to its position |
| Inode.StagesClosedForm | src/surffs_inode.c:351-481 | the stages (dots, special files, links) together take the listing from the position up to the first refused entry, and move past a refused entry unless it is a dot |
| Inode.ReaddirClosedForm | src/surffs_inode.c:453-481 | `surffs_readdir` as written, in closed form over the listing |
| Inode.ReaddirLosesEntry | src/surffs_inode.c:375-386 | as written, a call that runs out of room moves the position past the refused entry, so the next call never lists it |
| Inode.ReaddirSameEntries | src/surffs_inode.c:351-481 | within one call, the written and the intended readdir take the same entries and return the same code |
| Inode.ReaddirResumes | src/surffs_inode.c:351-481 | with the intended position, successive calls take consecutive windows of the listing with nothing lost or repeated, and return 0 exactly at the end |
| Inode.EmitDots | src/surffs_inode.c:468 | the dots from the position on, keeping the position of a refused dot |
| Inode.OfferRun | src/surffs_inode.c:369-387 | each entry at and after the position is offered in order until one is refused; the position moves after every offer, the refused one included |
| Inode.EmitSpecialFiles | src/surffs_inode.c:351-392 | a position before the expected start gives -EINVAL; otherwise the special files from the position on, as `OfferRun` |
| Inode.EmitDirs | src/surffs_inode.c:394-451 | a position before the expected start, or no page, gives -EINVAL; otherwise the link titles from the position on, as `OfferRun` |
| Inode.ListAfterDots | src/surffs_inode.c:470-474 | the special files from position 2, then the links from 6 |
| Inode.ListDir | src/surffs_inode.c:468-474 | the stages in order yield `ReaddirAsWritten` |
| Inode.Readdir | src/surffs_inode.c:453-481 | no page after obtaining it: an error with nothing listed; otherwise the listing as written, from the position |
| Inode.Kiocb.constructor | src/surffs_inode.c:533 | a read control block at a file position |
| Inode.ReadSlice | src/surffs_inode.c:552-556 | a read returns min(requested, length - pos) bytes starting at pos |
| Inode.ReadSliceConcat | src/surffs_inode.c:552-564 | two reads in a row return what one read of both lengths returns |
| Inode.ReadSliceAtEnd | src/surffs_inode.c:552-556 | a read at the end returns nothing |
| Inode.AioRead | src/surffs_inode.c:527-572 | no page: -EINVAL; no source: 0 bytes; a position beyond the text: -EINVAL; otherwise the clipped slice at the position, returning its length and moving the position by it |
| Base.Digits | src/surffs_internet.c:119 | the decimal form of a number is a non-empty run of digits, two or more from 10 on |
| Base.DigitsInjective | src/surffs_internet.c:119 | different numbers have different decimal forms |
| CString.IndexOfFirst | src/surffs_parser.c:53 | `strstr` finds the first occurrence, and finds none only when there is none |

## Left out

- Allocation failure: every `-ENOMEM` path (kmalloc, krealloc, kzalloc) is left out; allocation always succeeds.
- Socket I/O (src/surffs_socket.c:30-284): socket creation, connect, timeouts, `sock_sendmsg` and the chunked receive loop are replaced by a parameter, `NetOutcome`, that says what they produced.
- `sfs_string_cat_param`, `sfs_string_bind`, and the `*_print` functions of the link, address and page records: log text is modelled as the appended strings, not through `sprintf`.
- Debug logging (`sfs_debug`, `sfs_trace`, `sfs_error`): it has no effect on behaviour.
- Concurrency: the global page list and the ledger are unsynchronised in the source. The model is sequential.
- The NUL terminator of an `sfs_string` is implicit. The text is `data[..textlen]`.
- Characters are Dafny `char`s standing for bytes. The source's `char` is taken to be signed (as on x86), which matters only in `is_illegal_title_char`: bytes of 0x80 and above are negative there, so titles lose them to ' ' as well. An unsigned `char` would keep them.
- Kernel VFS plumbing: inode numbers (`iunique`), modes, operation tables, `d_splice_alias`, `insert_inode_hash`, `surffs_delete_inode`, `surffs_mount`, `surffs_test_super` and module init/exit.
- Mount option parsing (src/surffs_sb.c:34-75): the ip the `ip=` option yields is a parameter of `CheckMount` and `FillSuper`.
- `free_discovred_paths` and unmount: the ledger is never torn down in the model.
- `surffs_follow_link` is kernel glue. The symbolic link's target is modelled by `linkto` and by `Resolve`, a simplified relative-path resolver that reads a target from the link's directory.
- The 4096-bucket hash table with `full_name_hash`: the ledger is one list, newest first. It is met in the same order as a bucket walk for a given key.
- `copy_to_user` partial copies: a read copies all the bytes it returns.
- The `size_t` wrap of the read position is modelled (`SizeT`, 64 bits). The wrap of pos + len is not.
- `dir_emit_dots` is modelled by its documented kernel behaviour: it emits "." at 0 and ".." at 1 and keeps the position of a refused dot.
- Inode.DirContext.Actor: the value a full sink returns is modelled as -EINVAL, because only its being non-zero matters here.
- Helpers.SfsString.Free: the source frees `data` but leaves the freed address in it, so a second free of the same string is a double `kfree`. The model gives the string a new empty buffer, so it does not capture this use-after-free hazard.
- Helpers.SfsString.Ncat: requires memlen > 0. On a zeroed string the source computes `memlen - textlen - 1` in `size_t`, which wraps, and then appends through a NULL buffer. That behaviour is undefined, so it is not modelled.
- Helpers.SfsString.Cat: the same requirement, for the same reason.
- Parser.TrimmedUnique, Parser.TrimmedIdempotent: stated only for character sets without the byte 0x01. The backward loop of `trim` tests `(*end-1)`, the byte past the candidate end minus one, so it stops early after removing a 0x01. Every caller passes " " or " \"'", where this cannot happen.
- Three behaviours of the code that a reader might not expect are modelled as written:
  - `check_html_link` (src/surffs_internet.c:90) refuses only a path equal to the parent's, so a link whose path came out empty is accepted when the parent path is not empty;
  - `surffs_extract_http_payload` (src/surffs_socket.c:303) looks for "200 OK" anywhere in the response, not just in the status line;
  - `obtain_webpage` (src/surffs_internet.c:228-233) gives a page whose fetch returned no payload the status HTTP_ERROR, and the page stays cached.

## Findings

| source | as written | input that shows it | evidently intended | confidence | as-written member | corrected member |
|---|---|---|---|---|---|---|
| src/surffs_inode.c:384-385 | `ctx->pos++` runs before `if (ret)` in `emit_special_files` and in `emit_dirs` (442-443), so the position moves past the entry the actor refused | a page with no links, position 0, room for 3 entries: the first call lists ".", "..", "page.html" and leaves the position at 4, so "url" is never listed | the position stays at the refused entry, so the next call lists it | not executed | Inode.ReaddirLosesEntry | Inode.ReaddirResumes |
| src/surffs_inode.c:264-269 | the link target is `get_relative_path_to_surffs_root` of the parent + the recorded path; for a link in the mount root the first part is empty | a link in the mount root to a page recorded at "/a_link1": the target is "/a_link1", which path resolution reads from the root of the whole file system | a target relative to the link's directory ("./a_link1") | not executed | Inode.RootLinkEscapes | Inode.LinkResolves |
