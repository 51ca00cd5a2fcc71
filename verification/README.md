# Web server: config, memes, requests and responses

A Dafny model of the logic of a small C++ web server: the nginx-style configuration parser and printer, the
handler tables and routing built from a configuration, HTTP request parsing and response framing, the text codecs,
the meme table with its ids and access tokens, and the status counters. `dafny verify dfyconfig.toml` checks all
of it.

Each part has two layers. Objects that the server updates in place (`NginxConfig`, the parser, `Dispatcher`,
`Request`, `Response`, `StatusObject`, `MemeHandler`) are classes whose methods are proved against functions on
values; the laws are lemmas about those functions.

- `Text`: find, substr, replace_all, split with token compression, header lines, decimal numerals
- `ConfigTree`, `ConfigLexer`, `ConfigMachine`, `ConfigRoundTrip`: the grammar and the printer, the character
  machine, the token machine, and the laws between them
- `ConfigAttributes`, `ConfigHandlers`, `HandlerPlaces`, `ConfigObjects`, `Dispatching`: settings read back from
  printed text, handler tables and routing, which statements are entered, and the objects in place
- `HtmlCodec`, `FormCodec`, `MemeSearch`: entity encoding, percent-decoding (section 2.1 of RFC 3986) and
  form-decoding (section 8.2.1 of RFC 1866), the LIKE pattern of a search
- `MemeIds`, `MemeStore`, `MemeProtocol`, `MemeRollOver`: ids and their order, the table operations, requests
  interleaving on the table, and when the ids run out
- `Requests`, `Responses`, `StatusCounters`: parsing, framing, counting

Characters stand for bytes. The SQLite table is a map from id to row whose statements are atomic and succeed; what
rand returns is a parameter.

## Findings

- The next id is the textual maximum plus one. Once 99999 and 100000 are both stored the maximum stays 99999, so
  every further create takes 100000 again and replaces that row. From an empty table 90001 creates give out the ids
  10000 to 100000, and the next one overwrites (`MemeRollOver.CreatesCountUp`, `MemeRollOver.NextCreateOverwrites`).
  `MemeProtocol.CreateOverwritesIff` says exactly when a create overwrites, whatever other requests do in between.
- The delete page compares an integer literal with the text of the id, so a row whose id has leading zeros, or a value
  above 9223372036854775807, cannot be deleted by naming it (`MemeStore.DeletesNamedIff`, `MemeStore.NotDeletedExamples`).
- `GetRoot` keeps the semicolon: the statement `root v;` gives the root `v;` (`ConfigAttributes.RootKeepsSemicolon`,
  `ConfigAttributes.RootIsAttributeIff`).
- `htmlDecode` replaces `&amp;` first, so it undoes `htmlEncode` only on strings without a literal `&quot;`, `&apos;`,
  `&lt;`, `&gt;` or `&nbsp;` (`HtmlCodec.DecodeUndoesEncodeIff`).
- A form value loses plus signs and the first literal `%2F`, because both are replaced after percent-decoding
  (`FormCodec.DecodeValueIff`, `FormCodec.LostExamples`).
- LIKE stops at a NUL and compares characters, not bytes, so a term behind a NUL or inside a character is not found
  (`MemeSearch.MissedExamples`); `MemeSearch.SearchCannotMiss` and `MemeSearch.ContainedHolds` say when it is.
- A request body of more than one line is cut down to its last line, and the lines before it are read as header
  fields; an empty path makes a request malformed (`Requests.PrintedRequestParses`). The comment in
  `src/request.cc:98` calls that last piece a newline; the code stores it as the body.
- The comment on `verifyTokenAuthentication` (`src/meme_handler.cc:123`) says that token and meme id match up; the code
  compares the token with the id inside the token only, and the model follows the code. With rows 10000 and 10001 the
  token of the first is accepted with the page that deletes the second (`MemeStore.MismatchExample`, in general
  `MemeStore.PageOfAnotherRow`). A delete removes no row but that of its token exactly when the page names that row or
  no stored id (`MemeStore.PageMatchesTokenIff`).

## Model

| member | source | states |
|---|---|---|
| ConfigLexer.LexNormalIff | src/config_parser.cc:189-270 | The character machine reports a word exactly when the input is blanks, a plain or quoted word, and (after a plain one) a character that ends it and stays unread |
| ConfigLexer.LexMarkIff | src/config_parser.cc:199-205 | It reports a bracket or semicolon exactly when the input is blanks, that mark and the rest |
| ConfigLexer.LexCommentIff | src/config_parser.cc:246-251 | It reports a comment exactly when the input is blanks, a hash sign, text without line ends, a line end and the rest |
| ConfigLexer.LexErrorIff | src/config_parser.cc:263-267 | It reports an error exactly when a quote is never closed |
| ConfigLexer.LexProgress | src/config_parser.cc:252-259 | Every token but end of input or error leaves strictly less input, the pushed-back character included |
| ConfigLexer.CommentSkipped | src/config_parser.cc:288-291 | Comments do not change the token stream |
| ConfigLexer.SkippedIff | src/config_parser.cc:221-225 | Exactly space, tab, LF and CR are skipped in front of a token |
| ConfigLexer.EndedIff | src/config_parser.cc:252-259 | A plain word is ended by exactly space, tab, LF, semicolon and the two brackets; any other character, a CR, quote or hash sign too, goes on with the word |
| ConfigLexer.QuotedIs | src/config_parser.cc:210-245 | A quoted word goes from a quote to the next of the same kind, whatever stands between, and without one there is an error |
| ConfigLexer.CommentIs | src/config_parser.cc:246-251 | A comment goes from a hash sign to the first CR or LF |
| ConfigLexer.MarksAre | src/config_parser.cc:200-220 | Each bracket and the semicolon is a token of its own kind |
| ConfigObjects.NginxConfigParser.ParseToken | src/config_parser.cc:189-270 | The method with its state variable and push-back leaves the stream and the token as the character machine does |
| ConfigMachine.AdvanceInvariant | src/config_parser.cc:279-365 | At every point of a run the stack is as deep as there are open brackets, a word always has a statement to go to, and the stack derives exactly the tokens read so far |
| ConfigMachine.ViablePrefix | src/config_parser.cc:293-364 | A run of tokens passes without a bad transition exactly when some configuration begins with it: the error comes at the first token that none continues |
| ConfigMachine.AcceptNext | src/config_parser.cc:279-365 | One token read from the text moves the run as the loop does, on less text |
| ConfigMachine.ParseIffDerives | src/config_parser.cc:272-371 | Parse succeeds with a tree exactly when the token stream up to end of input derives from config = stmt+, stmt = WORD+ (";" or "{" stmt* "}"), and the tree is that derivation |
| ConfigMachine.AcceptedIff | src/config_parser.cc:293-364 | Parse returns true exactly on texts read to their end in which semicolons and opening brackets stand behind a word, closing brackets behind something else while a block is open, the last token is a semicolon or closing bracket, and no block is left open |
| ConfigMachine.BuiltExamples | src/config_parser.cc:272-371 | The trees of words with a semicolon, of an empty block, of a nested statement and of two statements |
| ConfigMachine.YieldInjective | src/config_parser.cc:272-371 | The grammar is unambiguous |
| ConfigMachine.LeftBehindDerives | src/config_parser.cc:279-371 | What Parse has built when it stops is the one tree that derives the longest run of tokens without a bad transition, ended by a semicolon if it stops within a statement and with its open brackets closed |
| ConfigObjects.NginxConfigParser.Parse | src/config_parser.cc:272-371 | The in-place parser with its stack of objects returns true exactly on the grammar, appends objects representing the derivation (or on false the half-built tree) to whatever the configuration held, and terminates |
| ConfigRoundTrip.PrintThenParse | src/config_parser.cc:143-171 | Printing any well-shaped tree at any indent gives text that parses to exactly that tree, empty blocks included |
| ConfigRoundTrip.ParseThenPrint | src/config_parser.cc:189-371 | Printing what any accepted text parsed to gives text that parses to the same tree |
| ConfigRoundTrip.ParsedImage | src/config_parser.cc:189-371 | Some text parses to a tree exactly when the tree is a non-empty configuration of plain and quoted words |
| ConfigRoundTrip.PrintInjective | src/config_parser.cc:19-27 | Different trees never print alike, at any two indents |
| ConfigObjects.NginxConfig.ToString | src/config_parser.cc:19-27 | The printing loop over statement objects gives the printed text of the tree they represent |
| ConfigObjects.NginxConfigStatement.ToString | src/config_parser.cc:143-171 | The same for one statement and its child block |
| ConfigTree.PrintedLayout | src/config_parser.cc:143-171 | The printed lines of nested blocks, with four spaces for each level |
| ConfigTree.IndentIs | src/config_parser.cc:146-149 | An indent is four spaces for each level |
| ConfigAttributes.RoutingKeyIsHandlerKey | src/config_parser.cc:47-59 | Where a semicolon follows the first "url", PeekURL and GetAttribute agree exactly when the key has no NUL |
| ConfigAttributes.PeekedURLMeans | src/config_parser.cc:47-59 | PeekURL gives what stands between the first "url" and the next semicolon, without its first character; all behind the semicolon if nothing stands there; nothing without "url" |
| ConfigAttributes.AttributeMeans | src/config_parser.cc:115-141 | GetAttribute gives the same for any attribute, up to the first NUL, and nothing without a semicolon |
| ConfigAttributes.RootMeans | src/config_parser.cc:90-113 | GetRoot gives the same with the semicolon, and nothing without "root" or a semicolon behind it |
| ConfigAttributes.PeekedURLIsValue | src/config_parser.cc:47-59 | When the first "url" printed begins a statement "url v", at the top level or in a child block at any depth, the key is v |
| ConfigAttributes.RootKeepsSemicolon | src/config_parser.cc:90-113 | What GetRoot reads is the root attribute with a semicolon behind it, exactly when it is not cut short by a NUL or by "root;" |
| ConfigAttributes.RootIsAttributeIff | src/config_parser.cc:90-141 | It is the root attribute itself exactly when a NUL comes before the semicolon, or for a bare "root;" with nothing or a NUL behind it |
| ConfigAttributes.RootOfStatement | src/config_parser.cc:90-113 | For a first statement "root v" the root is "v;" |
| ConfigObjects.NginxConfig.GetRoot | src/config_parser.cc:90-113 | The root is read from the printed first statement, empty when there is none or no semicolon follows |
| ConfigObjects.NginxConfig.PeekURL | src/config_parser.cc:47-59 | The scanning loop returns the text between the first "url" and the next semicolon |
| ConfigObjects.NginxConfig.GetAttribute | src/config_parser.cc:115-141 | The attribute is read from the printed block, empty when no semicolon follows |
| ConfigHandlers.TablesAgree | src/config_parser.cc:29-45 | Both tables have the urls of the handler statements as keys, and name and block of a key come from the same statement, the first with that url, children before parents |
| ConfigHandlers.RebuildStable | src/config_parser.cc:42-42 | However many sessions rebuild the tables, the shared url map changes with the first only |
| ConfigObjects.NginxConfig.ParseString | src/config_parser.cc:29-45 | The traversal fills both tables and the shared map with the entries in order, never replacing one |
| HandlerPlaces.HandlerEntered | src/config_parser.cc:29-45 | Every block that begins with the word handler and a name, at any depth, is entered in both tables under the url peeked in it |
| HandlerPlaces.KeyHasHandler | src/config_parser.cc:29-45 | Only such blocks are: every key added is the url of one at some place of the configuration, and the tables hold its name and block |
| HandlerPlaces.FirstClosedWins | src/config_parser.cc:31-42 | Of several with one url the tables hold the one closed first, an inner block before the one around it |
| ConfigHandlers.SelectsIff | src/dispatcher.cc:29-42 | A path selects a key exactly when the key has no later slash and the path is the key or continues it with a slash |
| ConfigHandlers.RoutingLaw | src/static_handler.cc:29-30 | The path u/rest selects u, and what the handler strips leaves rest |
| ConfigHandlers.ReachableKeys | src/dispatcher.cc:29-42 | A key with a later slash is selected by no path |
| ConfigHandlers.DispatchEndToEnd | src/dispatcher.cc:41-48 | A request for u/rest finds the first handler statement for u, whose handler reads u from its own block and is left with rest |
| Dispatching.Dispatcher.constructor | src/dispatcher.cc:15-19 | A dispatcher's root is that of the first statement, its tables are those of the configuration, and its handlers are entered in the shared map |
| Dispatching.Dispatcher.GenerateResponse | src/dispatcher.cc:21-79 | The first segment of the request's path selects name and block, the handler of the class with that name, for each of the eight names, is created with the block and the dispatcher's root (the error handler with an empty configuration for an unknown key), and request and response are kept |
| Dispatching.NamedClasses | src/handler_manager.cc:3-38 | The eight names each stand for their class, and no other name has one |
| Dispatching.AnswerFor | src/dispatcher.cc:15-54 | With a block "handler name" at any depth, the first closed with its url u, a request for u/rest is answered by the class of that name, with that block |
| Dispatching.DispatchFor | src/dispatcher.cc:15-48 | Building a dispatcher in place and asking it for u/rest gives the name of the first handler statement for u, an object representing its block, and u when the handler reads its url back |
| HtmlCodec.DecodeEncode | src/url_parser.cc:26-56 | Encoding and then the six replacements amount to one pass that replaces the literal entities other than ampersand's |
| HtmlCodec.DecodeUndoesEncodeIff | src/url_parser.cc:26-56 | Decoding undoes encoding if and only if none of the five other literal entities occurs |
| HtmlCodec.LiteralExamples | src/url_parser.cc:48-49 | A literal ampersand entity survives, a literal quote entity does not |
| HtmlCodec.EncodeLiterals | src/url_parser.cc:30-38 | The encodings of the six characters, and every other character stands for itself |
| HtmlCodec.DecodeLiterals | src/url_parser.cc:48-53 | The decodings of the six entities, and a text without ampersands stands for itself |
| HtmlCodec.EncodeInjective | src/url_parser.cc:26-42 | Different strings have different encodings |
| HtmlCodec.EncodeConcat | src/url_parser.cc:26-42 | Encoding distributes over concatenation |
| HtmlCodec.EncodeLength | src/url_parser.cc:26-42 | An encoding is at least as long as the string and at most six times as long |
| HtmlCodec.EncodeHtml | src/url_parser.cc:26-42 | The loop with its switch computes the encoding |
| HtmlCodec.DecodeHtml | src/url_parser.cc:44-56 | The six replacements in place compute the decoding |
| FormCodec.DecodeUrl | src/url_parser.cc:5-24 | The index loop computes percent-decoding |
| FormCodec.EscapeDecodes | src/url_parser.cc:12-17 | A percent sign and two hexadecimal digits, in either case, decode to the character with that code |
| FormCodec.PlainDecodes | src/url_parser.cc:18-21 | Any other character stands for itself |
| FormCodec.DecodeEncoding | src/url_parser.cc:5-24 | Percent-decoding any form encoding of a string gives it back but for spaces that were written as plus signs |
| FormCodec.DecodeValueIff | src/meme_handler.cc:284-305 | A form value survives encoding and decoding exactly when it has no plus sign and no literal %2F |
| FormCodec.DecodedIs | src/meme_handler.cc:284-305 | What any encoded value decodes to: plus signs become spaces and only the first literal %2F a slash |
| FormCodec.LostExamples | src/meme_handler.cc:284-305 | An encoded plus sign comes back as a space, an encoded %2F as a slash |
| FormCodec.ParseRequestBody | src/meme_handler.cc:251-327 | The method with its map and early returns computes the fields of every body for which the code is defined |
| FormCodec.ShortWithoutAccess | src/meme_handler.cc:266-277 | A body of one or two items without "access" in it gives no fields |
| FormCodec.ShortWithAccess | src/meme_handler.cc:266-277 | With "access" in it the first item is the one field, its value not decoded |
| FormCodec.CutOffBody | src/meme_handler.cc:283-289 | A body that comes to an item with a second equals sign gives the fields before it as they are, neither html-encoded nor with the image in its folder |
| FormCodec.FormRoundTrip | src/meme_handler.cc:251-327 | At least three pairs with distinct plain keys and encoded clean values decode to those values, the three texts html-encoded, the image in its folder and with df- exactly when deepfry is True |
| MemeSearch.SearchCannotMiss | src/meme_handler.cc:879-892 | If a raw name holds a raw term as whole characters with no NUL before its end, the wrapped encoded term matches the stored name under LIKE, wildcards or not |
| MemeSearch.ContainedHolds | src/meme_handler.cc:879-892 | Of texts in UTF-8 without NUL, a name that contains a term holds it in that sense |
| MemeSearch.MissedExamples | src/meme_handler.cc:879-892 | A term behind a NUL of the name, or a part of a character, is contained and not found |
| MemeSearch.SearchExact | src/meme_handler.cc:879-892 | A term without wildcards matches exactly the stored names whose characters contain those of its encoding in either case; with a NUL in it, exactly those that end with what precedes the NUL |
| MemeSearch.MatchedConcat | src/meme_handler.cc:892-892 | A pattern in two parts matches exactly the texts that split into what the parts match |
| MemeSearch.MatchedOne | src/meme_handler.cc:892-892 | The percent sign matches any text, the underscore any one character, any other character itself or the same ASCII letter in the other case |
| MemeSearch.CharacterBytes | src/meme_handler.cc:892-892 | Two bytes are compared as one character exactly when the first is from C0 on and the second a UTF-8 continuation byte |
| MemeSearch.CaseBlind | src/meme_handler.cc:879-892 | Terms and names that differ only in the case of ASCII letters find and are found alike, wildcards or not |
| MemeStore.PostedNameFound | src/meme_handler.cc:320-320 | A meme posted under a name is found by every term that the name holds |
| MemeIds.LexMeans | src/meme_handler.cc:722-722 | In the order of texts a beginning comes before the whole, else the first difference decides |
| MemeIds.LexIsNumeric | src/meme_handler.cc:722-729 | On numerals of one length string order is numeric order |
| MemeIds.LexAcrossLengths | src/meme_handler.cc:722-722 | A shorter numeral comes before a longer one exactly when its value is at most that of the longer one's leading digits |
| MemeIds.FreshAtOneLength | src/meme_handler.cc:719-736 | While stored ids are numerals of one length, the next id (textual maximum plus one, or 10000) is not stored |
| MemeIds.TakenIff | src/meme_handler.cc:722-729 | For any numerals as ids, leading zeros or not, the next id is stored exactly when the textual maximum is all nines and the power of ten behind it is stored |
| MemeIds.SuccessorText | src/meme_handler.cc:728-729 | stoi, plus one, to_string is digit-by-digit increment |
| MemeStore.GenAccessToken | src/meme_handler.cc:660-677 | Two characters for each character of the id, each decided by one draw |
| MemeStore.DrawPicks | src/meme_handler.cc:664-673 | A draw picks its letter or digit by the remainder modulo 62, and two draws give one character exactly when they agree modulo 62 |
| MemeStore.TokenDetermines | src/meme_handler.cc:732-732 | A token belongs to one id, whatever rand returned |
| MemeStore.MemeHandler.SelectMax | src/meme_handler.cc:722-728 | The scan finds the textual maximum |
| MemeStore.MemeHandler.AddToDatabase | src/meme_handler.cc:679-788 | Exactly one row is inserted or replaced: under the next id with a new token, or under the named id with the token it has |
| MemeStore.MemeHandler.HandlePost | src/meme_handler.cc:62-87 | A posted form becomes one row holding its decoded fields |
| MemeStore.DeletesNamedIff | src/meme_handler.cc:202-221 | A delete page that names a stored id deletes that row exactly when the id has no leading zeros and is an integer literal of SQLite, at most 9223372036854775807 |
| MemeStore.DeletedIff | src/meme_handler.cc:202-221 | A delete page with digits behind it deletes exactly the numeral without leading zeros of that value, up to 9223372036854775807 |
| MemeStore.NotDeletedExamples | src/meme_handler.cc:220-222 | The page for 007 deletes id 7, and the page for 9223372036854775808 no id |
| MemeStore.DeleteRevokes | src/meme_handler.cc:130-152 | Once rows are deleted their tokens no longer authorize, while every other row's token still does |
| MemeStore.MemeHandler.MemeDelete | src/meme_handler.cc:202-224 | The id is cut out of the page, exactly that row goes, the tokens left keep their shape, and of the old tokens all but the deleted row's still authorize |
| MemeStore.MemeHandler.HandleDelete | src/meme_handler.cc:58-61 | An authorized delete removes the row its page names and no other; any other delete changes nothing |
| MemeStore.PageOfAnotherRow | src/meme_handler.cc:120-153 | The token of any row is accepted with the delete page of any other whose id is canonical, and then the other row goes |
| MemeStore.MismatchExample | src/meme_handler.cc:120-153 | So it is with the rows 10000 and 10001 |
| MemeStore.PageMatchesTokenIff | src/meme_handler.cc:120-153 | A delete with the token of a row removes only rows holding that token exactly when the page names that row or no stored id, and removes that row exactly when the page names it |
| MemeStore.MemeHandler.VerifyTokenAuthentication | src/meme_handler.cc:120-153 | The split and scan accept the master token, or a token with a dash that the row named before the dash holds |
| MemeStore.AuthorizedMeans | src/meme_handler.cc:127-152 | On any table a token is accepted exactly when it is the master token, or the token of a row and made of that row's id without a dash, a dash, and anything |
| MemeStore.AuthorizedIff | src/meme_handler.cc:130-152 | Where every row has its token, a token other than the master token is accepted exactly when some row holds it, and that row is the only one |
| MemeStore.RowTokenAccepted | src/meme_handler.cc:127-152 | Posting the token of a stored row authorizes |
| MemeStore.DefaultTokenUseless | src/meme_handler.cc:738-752 | The token an edit writes when it finds no row authorizes nobody |
| MemeStore.MemeHandler.SearchFromDatabase | src/meme_handler.cc:870-931 | The rows found are those one of whose three texts matches the wrapped term, each once with its contents: "a-z" by ascending name, "z-a" by descending name, "id" by ascending id, "newest" against the order of the scan, otherwise in it; every row holding a raw text that holds the raw term is among them |
| MemeProtocol.StepInvariant | src/meme_handler.cc:72-84 | Every lock, select, insert, unlock and unlocked delete of a proper run keeps exclusion, token shape and the newness of a chosen id |
| MemeProtocol.RunSafety | src/meme_handler.cc:72-84 | Over every proper interleaved run: tokens keep their shape and are pairwise different, one thread at most is past the lock, no create overwrites a row and no edit changes a token |
| MemeProtocol.RunAuthorization | src/meme_handler.cc:130-152 | After every such run a token other than the master token is accepted exactly when one row holds it |
| MemeProtocol.OthersDelete | src/meme_handler.cc:72-84 | While a thread holds the lock, any run of the other threads and of deletes takes exactly the deleted rows out of the table |
| MemeProtocol.CreateOverwritesIff | src/meme_handler.cc:719-774 | On any table of numeral ids, whatever enabled steps other threads and deletes take between its select and its insert, a create overwrites a row exactly when the select rolled over and none of them deleted that row |
| MemeProtocol.OneLengthNoRollOver | src/meme_handler.cc:719-736 | With stored ids of one length there is no roll-over |
| MemeProtocol.SameLengthRunProper | src/meme_handler.cc:719-736 | A run in which every create sees ids of one length and every edit finds its row is proper |
| MemeProtocol.ModestRunProper | src/meme_handler.cc:689-729 | A run from an empty table in which no create is run while 99999 is stored is proper, and its ids keep five digits |
| MemeRollOver.CreatesCountUp | src/meme_handler.cc:719-736 | From an empty table the first n creates, n up to 90001, are a proper run and leave exactly the ids 10000 to 10000 + n - 1 |
| MemeRollOver.NextCreateOverwrites | src/meme_handler.cc:722-774 | After 90001 of them the next create chooses 100000, which is stored, and its insert replaces that row |
| MemeProtocol.LockedSequence | src/meme_handler.cc:72-84 | Lock, select, insert and unlock undisturbed have the effect of AddToDatabase |
| Requests.PrintedRequestParses | src/request.cc:32-119 | Of any printed request the parser reads back method, path, version and headers, takes the last line of the body for the body and the lines before it for headers; with an empty path it rejects the request |
| Requests.RequestRoundTripIff | src/request.cc:32-119 | A printed request parses back to its method, path, version, header list and body exactly when the path is not empty and the body is one line |
| Requests.HeaderLineParses | src/request.cc:99-112 | A header line whose key has no ": " parses to its key and value |
| Requests.FirstLineIff | src/request.cc:32-53 | A line is accepted with verb, path and version exactly when it is these three, free of spaces, with runs of spaces between them, the path not empty, the verb GET or POST, and HTTP/1.1 occurring in the version |
| Requests.AcceptedIff | src/request.cc:55-95 | A request is accepted, with these parts, exactly when the text before its first line end (CR or LF with a blank CRLF line, else LF) is such a line |
| Requests.HeaderOfIff | src/request.cc:99-112 | A line gives a field exactly when ": " occurs in it, split at the first one |
| Requests.LfRequestParses | src/request.cc:55-119 | What is made of any request printed with LF at the ends of lines |
| Requests.LfRoundTripIff | src/request.cc:55-119 | Such a request parses back exactly when its path is not empty and its body has no LF |
| Requests.Request.RequestHandler | src/request.cc:14-30 | The object holds the parsed request; it is GET /bad HTTP/1.1 without fields or body when no first line is there, and has the parts of the first line when one is |
| Requests.Request.Parse | src/request.cc:55-119 | The splitting and the header loop leave the fields of the parse, or nothing changed |
| Requests.Request.CheckFirstRequestLine | src/request.cc:32-53 | A first line in the sense of FirstLineIff is taken apart, for any other line nothing changes |
| Responses.Framing | src/response.cc:18-45 | After any history of header calls without line breaks the first CRLFCRLF ends the header section and the rest is the body |
| Responses.Response.Play | src/response.cc:18-27 | The header text after a history is that of the fields set since the last reset |
| Responses.HandleEcho | src/echo_handler.cc:20-38 | The echoed request is the framed body, and Content-Length is its length (section 3.3.2 of RFC 7230) |
| StatusCounters.TotalIsLength | src/status_obj.cc:26-35 | The counts add up to the number of calls |
| StatusCounters.FirstSeenSound | src/status_obj.cc:4-18 | The entries are the calls made, each once |
| StatusCounters.FirstSeenOrder | src/status_obj.cc:16-16 | Entries stand in the order in which their calls were first made |
| StatusCounters.CountedNext | src/status_obj.cc:4-18 | One more call raises its multiplicity, or enters it at the end |
| StatusCounters.StatusObject.AddStatusEntry | src/status_obj.cc:4-18 | The scan and update keep the entries equal to the distinct calls with their multiplicities |
| StatusCounters.StatusObject.GetStatusEntries | src/status_obj.cc:20-24 | The entries returned are the distinct calls of the history with their multiplicities |
| StatusCounters.StatusObject.GetStatusCalls | src/status_obj.cc:26-35 | The wrapping unsigned sum is the number of calls while that is an int |
| StatusCounters.AsIntMeans | src/status_obj.cc:26-35 | The returned int is congruent to the unsigned sum modulo 4294967296 and in the range of int |

## Left out

- ConfigObjects.NginxConfig.PeekURL: a "url" with no semicolon behind it makes the code read past the text; it is a precondition that this does not happen.
- ConfigObjects.NginxConfig.GetAttribute: a missing attribute has no defined result in the code and is excluded.
- ConfigObjects.NginxConfig.ParseString: statements without tokens, and handler statements without a name or a block, are undefined in the code and excluded.
- Dispatching.Dispatcher.GenerateResponse: what the handler makes of the request is a parameter; a handler name that no class has gives a null pointer, which the code calls through, and is excluded.
- Dispatching.Dispatcher.constructor: a configuration without statements is undefined in the code and excluded.
- FormCodec.ParseRequestBody: an item without an equals sign and a percent sign without two hexadecimal digits are undefined in the code and excluded.
- MemeStore.MemeHandler.AddToDatabase: ids whose value is 2147483647 or more, where stoi throws or the addition overflows, are excluded.
- MemeStore.MemeHandler.MemeDelete: the id is spliced into the statement unquoted; only pages "delete?id=" followed by nothing or by digits are modelled, not other expressions; digits beyond the range of integer literals, which are compared as a REAL, are excluded unless the stored ids are numerals.
- MemeStore.MemeHandler.SearchFromDatabase: stored texts come back whole, where the code cuts them at a NUL; which of two rows with equal names comes first is not said.
- MemeSearch.SearchExact: LIKE compares a byte with the continuation bytes behind it; SQLite reads several malformed sequences as one replacement character, and refuses patterns above its length limit.
- MemeProtocol.RunSafety: an edit that finds no row at its select writes the default token and may write any id; proper runs do not contain one.
- A word still being read at end of file is dropped as end of input; the parser laws are over the token stream that ParseToken gives.
- GetPort and opening a configuration file: a one-line search and I/O.
- The settings a handler reads besides its url, the static, proxy, health, status and error handlers' bodies, HTML pages and MIME types: tables, templates and I/O.
- Sockets, sessions, logging, metrics output and SQLite itself.
