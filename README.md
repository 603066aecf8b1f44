# WebCrawler in Dafny

A model of the Fakebook web crawler (`WebCrawler/http_requests.py` and
`WebCrawler/Scraper.py`) and proofs about it. The crawler speaks HTTP/1.1
over a raw socket. It logs in to Fakebook with a CSRF token, keeps a
frontier of same-origin URLs and a blacklist of visited ones, and collects
secret flags until it has five.

Modules, one file each:

- `Common` (`common.dfy`): `Option`, `Result`, and `Outcome`, which is
  returned, raised or diverges.
- `Text` (`text.dfy`): the Python string operations the code relies on:
  `in`/`find`, `split`, `join` and `replace`.
- `Numerals` (`numerals.dfy`): `int(s)`, `int(s, 16)` and `str(n)` on
  digit strings.
- `HttpMessage` (`http_message.dfy`): the `Response` value and
  `parse_headers`, as the function `ParsedHeaders` and the loop
  `ParseHeaders`.
- `HttpReceive` (`http_receive.dfy`): `receive_from_socket`.
  - The socket is the sequence of segments the peer will deliver.
    `recv(n)` takes at most `n` characters of the next segment.
  - `Receive` is the reader as a function of that sequence.
  - `ReceiveFromSocket` is the loop itself, proved equal to it. The loop
    body is split into `Pass` and `AcceptRead`.
- `HttpRequests` (`http_requests.dfy`):
  - the exact text `get` and `post` write;
  - how a URL is taken apart into host and path;
  - the class `KeepAliveRequests`, which owns the persistent connection.
- `Frontier` (`frontier.dfy`): what `add_url_to_queue` and `dissect_page`
  do to the queue, the blacklist and the flag list, as functions on
  values, with their invariants.
- `Scraper` (`scraper.dfy`): the class `Scraper`, with one method per
  Python method. Its requester is a server oracle: the sequence of
  responses the server gives, in order. An exhausted oracle yields the
  synthetic 500 response, as a closed connection does
  (`HttpReceive.ClosedConnection`).

Where the code departs from HTTP/1.1 message framing (sections 3.3 and
4.1 of RFC 7230) or from what its own comments say it does, the model
follows the code:

- In the outer read loop, reads of one or two characters are dropped,
  including inside a body. Their characters are lost, so a body delivered
  in one-byte reads is not reassembled (`HttpReceive.ShortReadsIgnored`).
- In the outer read loop, a read of zero characters returns
  `Response("", 500, {})` and discards what was assembled
  (`HttpReceive.ZeroLengthRead`).
- The inner loop that reads a chunk-size line behaves differently.
  - Each of its `recv(1)` reads is kept, character by character, up to
    the first CRLF, one or more characters without LF, CRLF
    (`HttpReceive.ReadSizeLineFirst`).
  - An empty read there does not return 500: the loop just reads again.
    On a closed connection the reader waits forever
    (`HttpReceive.ChunkCompleteThenClosed`).
- A chunk-size line that reads as 0 ends the loop at once. The data of
  the read that completed the previous chunk is not appended, so a
  standard chunked body loses the data of the read that completed its last chunk
  (`HttpReceive.FirstSizeLineZeroStops`).
- The head is not accumulated over several reads. The first read longer
  than two characters is parsed as the head. Without a blank line in it,
  `parse_headers` raises.
- A header line is split on every `": "`, so a value stops at its second
  `": "`.
- A first read that ends exactly with the head returns an empty body,
  whatever `Content-Length` says.
- In chunked mode the expected length is replaced by each new chunk size,
  not added to a running total. The next read asks for
  `expected - len(buffer)` characters, not a fixed block.
  - Example: the body `5\r\nHello\r\n6\r\n World\r\n0\r\n\r\n` arriving in
    one read does not give `Hello World`.
  - `parse_headers` cuts that read at the body's closing blank line, and
    the first line gives the size 5, so the data kept is `Hello6 World0`.
  - That completes the chunk without a blank line, so the reader then
    waits for a further chunk-size line that never comes. This holds
    whatever written head announcing chunked framing comes first in the
    read (`HttpReceive.ChunkedExampleStalls`).

## Model

| member | source | states |
|---|---|---|
| Text.FindFrom | WebCrawler/http_requests.py:100 | `pat in s` searched from an index: the result is the least index at or after it where the pattern occurs, and None exactly when none does |
| Text.FindIsLeast | WebCrawler/http_requests.py:100 | an occurrence with no occurrence before it is the one the search returns |
| Text.Split | WebCrawler/http_requests.py:35 | `s.split(sep)` always yields at least one field, even for an empty string |
| Text.SplitFieldsFree | WebCrawler/http_requests.py:35 | no field of `s.split(sep)` holds the separator |
| Text.SplitNoOccurrence | WebCrawler/http_requests.py:35 | a string without the separator splits into itself alone |
| Text.SplitAfter | WebCrawler/http_requests.py:43 | when the separator's first character is not in `a`, `a + sep + b` splits into `a` and then the fields of `b` |
| Text.JoinSplit | WebCrawler/http_requests.py:143-144 | joining the fields of a split with the same separator gives back the string |
| Text.SplitJoin | WebCrawler/http_requests.py:174 | fields free of the separator's first character, joined and split again, come back unchanged |
| Text.ReplacePrefix | WebCrawler/http_requests.py:142 | `replace` removes a leading pattern from a rest that holds no other copy of it |
| Text.ReplaceStep | WebCrawler/http_requests.py:113 | `replace` scans left to right: the text before the first occurrence is kept, the occurrence becomes the replacement, and the scan goes on after it |
| Text.RemoveThreeCrlf | WebCrawler/http_requests.py:84 | removing the CRLFs between LF-free pieces joins the pieces |
| Text.ReplaceAbsent | WebCrawler/http_requests.py:142 | `replace` leaves a string without the pattern unchanged |
| Text.SplitTerminated | WebCrawler/http_requests.py:146-151 | lines each ended by a newline and free of newlines split back into those lines, followed by the tail's fields |
| Text.SplitLines | WebCrawler/http_requests.py:146-151 | newline-terminated clean lines split into those lines and one final empty field |
| Text.JoinTerminated | WebCrawler/http_requests.py:140 | joining lines with newlines and adding a newline ends every line with one |
| Text.FirstFieldFree | WebCrawler/http_requests.py:143 | the first field of a split on one character never holds that character |
| Numerals.ToDecimal | WebCrawler/http_requests.py:179 | `len(post_content)` written out is a non-empty string of decimal digits |
| Numerals.DecimalRoundTrip | WebCrawler/http_requests.py:179 | a length written by `post` reads back with `int` as that length |
| Numerals.HexRoundTrip | WebCrawler/http_requests.py:83 | a size written in hexadecimal reads back with `int(s, 16)` as that size |
| Numerals.HexLeadingZero | WebCrawler/http_requests.py:113-114 | a leading zero does not change what `int(s, 16)` reads |
| Numerals.ParseHexZero | WebCrawler/http_requests.py:113-114 | the chunk size "0" reads as zero |
| HttpMessage.HeaderFields | WebCrawler/http_requests.py:42-44 | the header lines give fields exactly when every line holds `": "`, one field per line, each the first two parts of its line |
| HttpMessage.ParseHeaders | WebCrawler/http_requests.py:26-46 | the loop filling the header dictionary returns exactly `ParsedHeaders`, with its error for a read without a blank line, a bad status line and a header line without `": "` |
| HttpMessage.FieldsMapKeys | WebCrawler/http_requests.py:41-44 | the dictionary's names are exactly the names on the header lines |
| HttpMessage.FieldsMapLastWins | WebCrawler/http_requests.py:44 | the value kept for a name is the one on the last line with that name |
| HttpMessage.DataBetweenSeparators | WebCrawler/http_requests.py:35 | the data `parse_headers` returns is the text after the first blank line, up to the second one or the end |
| HttpMessage.SecondField | WebCrawler/http_requests.py:35 | the second field of a split lies between the first and the second occurrence of the separator |
| HttpMessage.StatusLineReadsBack | WebCrawler/http_requests.py:39 | the code read from `version status reason` is `status` |
| HttpMessage.FieldLinesReadBack | WebCrawler/http_requests.py:42-44 | header lines written as `name: value` read back as those fields when names hold no `:` and values no `": "` |
| HttpMessage.ParseLines | WebCrawler/http_requests.py:35-46 | clean head lines, a blank line and data without one parse into the status, the dictionary of the fields and that data |
| HttpMessage.ParseRenderedHead | WebCrawler/http_requests.py:26-46 | a head written out by a server parses back into its status, its header dictionary (last name wins) and its data |
| HttpMessage.ParseRenderedHeadCut | WebCrawler/http_requests.py:26-46 | a written head followed by data lines, a blank line and anything else reads back as its status and headers, with only the data lines before that blank line as data |
| HttpReceive.Recv | WebCrawler/http_requests.py:63-65 | `recv(n)` returns at most `n` characters, what it returns followed by what is left is what was to come, and a non-empty read uses up input |
| HttpReceive.ReadSizeLineFirst | WebCrawler/http_requests.py:106-112 | the inner loop returns the shortest extension of its accumulator that holds a size line, followed by exactly the input left unread, and returns None exactly when no prefix of the text still to come completes one |
| HttpReceive.ReadFirstSizeLine | WebCrawler/http_requests.py:106-112 | however the text to come is split into segments, the inner loop reads exactly its shortest prefix holding a size line |
| HttpReceive.ReadChunkSizeLine | WebCrawler/http_requests.py:107-112 | the one-character read loop returns exactly `ReadSizeLine`, and None where the source spins forever on a closed connection |
| HttpReceive.StepOf | WebCrawler/http_requests.py:62-117 | a pass that goes on leaves the reader with an expected length exactly when its head is parsed, and uses up input, so the loop ends |
| HttpReceive.AcceptRead | WebCrawler/http_requests.py:88-117 | the part of a pass after the head computes exactly `Accept` |
| HttpReceive.Pass | WebCrawler/http_requests.py:62-117 | one pass of the loop computes exactly `StepOf` |
| HttpReceive.ReceiveFromSocket | WebCrawler/http_requests.py:49-119 | the loop returns exactly `Receive` of the stream, and the segments left unread |
| HttpReceive.ZeroLengthRead | WebCrawler/http_requests.py:69-70 | a read of nothing in the outer loop, before the head or inside a body, ends the loop with `Response("", 500, {})` |
| HttpReceive.ClosedConnection | WebCrawler/http_requests.py:69-70 | a connection that is already closed yields the synthetic 500 response |
| HttpReceive.ShortReadsIgnored | WebCrawler/http_requests.py:71-72 | reads of one or two characters in the outer loop change nothing, before the head and inside a body alike |
| HttpReceive.FixedLengthTail | WebCrawler/http_requests.py:88-96 | in fixed-length mode, later reads of three or more characters that make up the rest of the body are appended in order and the last one ends the loop |
| HttpReceive.FixedLengthBody | WebCrawler/http_requests.py:74-96 | with `Content-Length`, a head read with some data, and later reads of three or more characters each that make up the rest, the body is the first read's data followed by every later read, exactly `Content-Length` characters |
| HttpReceive.FirstReadCompletes | WebCrawler/http_requests.py:86-96 | a first read that already holds the whole body ends the loop with its data |
| HttpReceive.HeadOnlyRead | WebCrawler/http_requests.py:88-91 | a first read ending with the head ends the loop with an empty body |
| HttpReceive.ServerErrorHead | WebCrawler/http_requests.py:78-79 | a head with status 500 ends the loop with empty text and that head's headers |
| HttpReceive.FrameFixed | WebCrawler/http_requests.py:86 | a head that is not chunked and carries a decimal `Content-Length` is framed by that length, keeping its data whole |
| HttpReceive.FrameFails | WebCrawler/http_requests.py:81-86 | framing fails exactly when a chunked head's first line is not hexadecimal, or an unchunked head has no or a non-decimal `Content-Length`, each with its own error |
| HttpReceive.ChunkedFirstData | WebCrawler/http_requests.py:81-84 | in chunked mode the expected length is the hexadecimal size line and the data kept is the payload with every CRLF removed |
| HttpReceive.CutAtSeparator | WebCrawler/http_requests.py:101 | cutting at the first blank line and then at the first CRLF is cutting at the first CRLF |
| HttpReceive.ChunkedLastRead | WebCrawler/http_requests.py:100-103 | once a chunk is complete, a read holding a blank line ends the loop and appends only its text before the first CRLF |
| HttpReceive.ZerosValue | WebCrawler/http_requests.py:113 | any run of zeros reads as hexadecimal 0 |
| HttpReceive.ZeroSizeLineRead | WebCrawler/http_requests.py:106-112 | a zero-size line (CRLF, any run of zeros, CRLF) is read up to its final LF and no further, however it is split into segments |
| HttpReceive.ZeroSizeLineValue | WebCrawler/http_requests.py:113 | a zero-size line with its CRLFs removed reads as hexadecimal 0, whatever the number of zeros |
| HttpReceive.FirstSizeLineZeroStops | WebCrawler/http_requests.py:106-115 | after a complete chunk whose read held no blank line, whenever the first chunk-size line still to come reads as 0 once its CRLFs are removed, the loop ends without appending that read's data, whatever the segmentation, and the text after that line stays unread |
| HttpReceive.ZeroSizeLineStops | WebCrawler/http_requests.py:106-115 | a zero-size line after a complete chunk, in any number of segments and with any text after it, ends the loop without appending the data of the read that completed the chunk, and leaves the text after the line unread |
| HttpReceive.ChunkCompleteThenClosed | WebCrawler/http_requests.py:93-112 | a chunk completed by data without a blank line, on a connection with nothing more to give, leaves the reader waiting forever |
| HttpReceive.ChunkedFirstReadStalls | WebCrawler/http_requests.py:62-115 | a single read whose framed data completes the first chunk without a blank line, on a connection with nothing more to give, leaves the reader waiting forever |
| HttpReceive.ChunkedExampleStalls | WebCrawler/http_requests.py:62-115 | a written chunked head followed in one read by `5\r\nHello\r\n6\r\n World\r\n0\r\n\r\n`: `parse_headers` keeps the lines before the closing blank line, framing gives size 5 and data `Hello6 World0`, and the whole receive loop waits forever |
| HttpRequests.TargetRoundTrip | WebCrawler/http_requests.py:142-144 | `http://host/path` is taken apart into that host and that path |
| HttpRequests.HostPathRebuild | WebCrawler/http_requests.py:142-144 | the host holds no `/`, and host, `/` and path give back the URL without its scheme |
| HttpRequests.GetRequestTerminated | WebCrawler/http_requests.py:146-151 | the GET text is its request, host, keep-alive, header and blank lines, each ended by a newline |
| HttpRequests.GetRequestLines | WebCrawler/http_requests.py:136-151 | the GET text splits back into request line, host line, keep-alive line, one line per header and the empty lines, with one more when no header is supplied |
| HttpRequests.PostRequestTerminated | WebCrawler/http_requests.py:175-183 | the POST text is its lines, each ended by a newline, and one more newline |
| HttpRequests.PostRequestLines | WebCrawler/http_requests.py:174-183 | the POST text splits back into its head lines, the blank line, the form body and two empty fields, and its `Content-Length` reads back as the length of the body |
| HttpRequests.FormBodyRoundTrip | WebCrawler/http_requests.py:174 | a form body splits on `&` back into its fields, and each field gives back its key and its value |
| HttpRequests.KeepAliveRequests.constructor | WebCrawler/http_requests.py:17-20 | a new requester is bound to its server, with its first connection and nothing sent |
| HttpRequests.KeepAliveRequests.InitiateConnection | WebCrawler/http_requests.py:22-24 | the connection is replaced and the log of sent requests is kept |
| HttpRequests.KeepAliveRequests.Get | WebCrawler/http_requests.py:122-154 | exactly the GET text is appended to what was sent, and the result and the rest of the connection are `Receive` of what it held |
| HttpRequests.KeepAliveRequests.Post | WebCrawler/http_requests.py:158-187 | the fresh connection goes to the URL's host, the text written is the POST text, and the result is `Receive` of that connection's reply |
| Frontier.EnqueueMembership | WebCrawler/Scraper.py:63-73 | a URL is queued afterwards exactly when it was queued before or is the origin plus an href without `:` that is not blacklisted; nothing queued moves; an href with `:` changes nothing |
| Frontier.EnqueueIdempotent | WebCrawler/Scraper.py:63-73 | adding the same href twice has the effect of adding it once |
| Frontier.EnqueueValid | WebCrawler/Scraper.py:63-73 | the queue stays free of duplicates and disjoint from the blacklist |
| Frontier.EnqueueAllValid | WebCrawler/Scraper.py:84-85 | the link loop keeps the queue free of duplicates and blacklisted URLs, and only appends |
| Frontier.EnqueueAllMembership | WebCrawler/Scraper.py:84-85 | after the link loop, a URL is queued exactly when it was queued before or some link admits it |
| Frontier.AddFlagsGrows | WebCrawler/Scraper.py:87-92 | the flag loop only appends and keeps the flag list free of duplicates |
| Frontier.AddFlagsMembership | WebCrawler/Scraper.py:87-92 | after the flag loop, a string is a flag exactly when it was one before or is the stripped text of a flag element |
| Frontier.AddFlagsSpec | WebCrawler/Scraper.py:87-92 | the flag loop appends, keeps the list free of duplicates and holds exactly the old flags and the stripped texts |
| Frontier.FlagElementTwice | WebCrawler/Scraper.py:89-92 | an element `FLAG: v` adds exactly `v`, unless `v` is already listed, and a second identical element adds nothing |
| Scraper.PageRequestOnTheWire | WebCrawler/Scraper.py:61 | the page request, as the requester writes it, is the request line, host and keep-alive lines, one `Cookie` line with the session cookie (`None` before a login) and the empty lines that end the head |
| Scraper.Scraper.constructor | WebCrawler/Scraper.py:7-18 | a new crawler has empty queue, blacklist and flags, no login state and no cookie |
| Scraper.Scraper.Exchange | WebCrawler/Scraper.py:31-61 | each call on the requester in `log_in`, `log_out`, `is_logged_in` and `get_page` (and through them `next_page`): the answer is the server's next response, the server moves on by one, the request is appended to the log, and nothing else changes |
| Scraper.Scraper.Reconnect | WebCrawler/Scraper.py:112 | reopening the connection changes no crawl or session state |
| Scraper.Scraper.LogIn | WebCrawler/Scraper.py:20-45 | the new session and error are exactly `LogInFrom` of the old session: GET of the login page, then, when a token is found, the POST of the form with the token cookie; logged in afterwards; the cookie is the `Set-Cookie` value plus the token, or the missing header is reported |
| Scraper.Scraper.LogInOutcome | WebCrawler/Scraper.py:20-45 | a login sends the login GET first and, with a token, posts it in the form and in the cookie header and marks the session logged in; it succeeds exactly when there was a token and the reply set a cookie, which becomes the session cookie |
| Scraper.Scraper.LogOut | WebCrawler/Scraper.py:47-49 | marks the session logged out and sends the logout GET with the current cookie |
| Scraper.Scraper.IsLoggedIn | WebCrawler/Scraper.py:51-56 | a known login state is returned without a request; otherwise the probe is fetched and a status from 301 to 399 reads as logged out |
| Scraper.Scraper.EnsureLoggedIn | WebCrawler/Scraper.py:59-60 | the new session and error are exactly `EnsureFrom` of the old session: probe when the state is unknown, log in when it is logged out or the probe reads logged out |
| Scraper.Scraper.EnsureLogsIn | WebCrawler/Scraper.py:51-60 | a login request is sent exactly when the session was logged out or the probe read logged out; with no error the session is not logged out afterwards; the server's answers are only used up, the log only extended |
| Scraper.Scraper.GetPage | WebCrawler/Scraper.py:58-61 | the new session and result are exactly `GetPageFrom` of the old session: the page is the server's answer to a GET of the URL carrying the session cookie, sent last, after a login when one is needed |
| Scraper.Scraper.GetPageAnswer | WebCrawler/Scraper.py:58-61 | the page returned is a response the server gave or the synthetic 500 of a closed connection, never anything else; it answers the last request, a GET of the URL with the session cookie, and the session is not logged out afterwards |
| Scraper.Scraper.AddUrlToQueue | WebCrawler/Scraper.py:63-73 | the queue becomes `Enqueue` of the old queue and blacklist, and nothing else changes |
| Scraper.Scraper.DissectPage | WebCrawler/Scraper.py:75-93 | the queue and flags become the link and flag loops over the page, the frontier invariant is kept and the blacklist is unchanged |
| Scraper.Scraper.NextPage | WebCrawler/Scraper.py:96-122 | the head of the queue moves to the blacklist, pages of 400 and above are skipped, a 301 is followed to its `Location`, and an empty queue raises |
| Scraper.Scraper.Run | WebCrawler/Scraper.py:125-137 | a returned result is the flag list, with at least five flags; the frontier invariant holds throughout and flags are only appended |

## Left out

- Sockets are not modelled: socket creation, `connect` and `send`.
  - Sending is recorded as the text written.
  - Receiving reads a given sequence of segments.
  - The reply stream of `post`'s fresh connection is a parameter.
- Characters stand in for the bytes of a Python 2 `str`.
- HTML parsing with BeautifulSoup is not modelled. It is the function
  `extract` given to the crawler, which returns the page's hrefs, its
  flag texts and its CSRF token.
  - Hrefs and flag strings are never None.
  - In the source a missing `href` or `flag.string` raises a TypeError or
    an AttributeError.
- `print`, `close` and `Response.__repr__` are not modelled: they are
  output only.
- Python 2 dictionary order is not modelled.
  - The queue is kept in insertion order, and `keys()[0]` is its first
    entry.
  - The entries of supplied header and form dictionaries are sent in the
    order the source's literals list them.
- `url_queue`, `url_blacklist` and `flags` are class attributes that every
  instance shares. They are modelled as fields of one crawler.
- `int(s)` and `int(s, 16)` accept only plain digit strings. Python also
  accepts surrounding whitespace, a sign, and for base 16 a `0x` prefix.
- The crawler's requester is an oracle of whole responses, reached only
  through `Scraper.Scraper.Exchange`. Reader
  exceptions and the reader hanging (`HttpReceive.Received` `Failed` and
  `Stuck`) are not carried up into the crawler. A reconnect does not
  change what the oracle gives next.
- A segment of the modelled stream may be empty and be followed by more.
  `Recv` then returns "" without the stream ending. A real `recv` returns
  "" only once the peer has closed, and from then on. The lemmas hold
  for every sequence of segments, and so also for the ones a socket can
  deliver.
- Python exceptions become error results rather than preconditions: a
  missing token, a missing `Set-Cookie` or `Location` header, an empty
  queue, and the reader's `ValueError`/`KeyError` cases.
- Python's recursion limit on `next_page` is not modelled.
- Scraper.Scraper.LogIn: an element named `csrfmiddlewaretoken` without a
  `value` attribute is treated like a missing element. The source would go
  on to post the token `None`.
- Scraper.Scraper.NextPage: the contract does not say which response of
  the oracle is returned. It states the frontier change, the skip of pages
  of 400 and above, the redirect and the retry loop's divergence. That
  loop diverges when the server has nothing left and no login is pending.
- Scraper.Scraper.Run: the contract states the returned flags and the
  invariants, not the sequence of pages visited.
  - Termination is on the oracle's length.
  - The source loops for as long as the server answers.
- HttpReceive.ReadSizeLineFirst: stated only for an accumulator that does
  not yet hold a size line. The inner loop starts from the empty text,
  which does not.
- HttpReceive.StepOf: its own contract states only that a pass keeps the
  reader consistent and uses up input. Its behaviour is what `Pass`, and
  the lemmas on `Receive`, state.
