# CampusMart chat and catalogue core, in Dafny

This project models the request handlers and the real-time layer of the CampusMart marketplace
backend, and proves properties of them. The modelled parts are:

- **The chat service** (`controllers/chatController.js`):
  - find-or-create of a chat between two users;
  - the chat list with unread counts;
  - text and file messages;
  - paginated history and search;
  - read receipts;
  - soft deletion;
  - block records.
- **The middleware in front of the send routes:**
  - the text validator (`middleware/chatMiddleware.js`);
  - the chat upload filter and stored file name (`utils/chatUploadMiddleware.js`).
- **The Socket.IO handlers** in `app.js`: presence maps, rooms, and event routing.
- **The listing catalogue** (`controllers/listingController.js`).

Storage is an in-memory state: chats in a map, messages in a log in creation order, block records
in a set, and listings in a map. Document ids are counters, so the database's natural order is
creation order. Time is an explicit, non-decreasing `now` argument. The regular-expression engine
behind `$regex` is an uninterpreted parameter (`Common.Regex`).

Files:

| file | module | models |
|---|---|---|
| `common.dfy` | `Common` | optional values, HTTP replies (including Express's default error page), JavaScript string truthiness, the regex parameter |
| `paging.dfy` | `Paging` | a query's filter, `.skip().limit()`, `Math.ceil(total / limit)`, reversal |
| `sorting.dfy` | `Sorting` | `.sort()` as a stable sort on a key, proved sorted and a permutation |
| `validation.dfy` | `Validation` | `validateMessage`, with `String.prototype.trim` |
| `uploads.dfy` | `Uploads` | Node's `path.extname`, the extension allow-list, the stored name, the size cap |
| `chats.dfy` | `Chats` | the chat service: pure queries and the `Store` class with its state-changing handlers |
| `sockets.dfy` | `Sockets` | the `Server` class: connections, rooms, `connectedUsers`, `userSockets` |
| `listings.dfy` | `Listings` | the listing query and the `Catalogue` class |

The state-changing handlers are methods of the classes `Chats.Store`, `Sockets.Server` and
`Listings.Catalogue`. Each method states its whole new state. The store methods keep an invariant
(`Chats.Consistent`) that includes:

- every message sender is a member of the message's chat;
- every sender has read their own message;
- a deleted message shows the placeholder;
- image and file messages, and only they, carry an attachment;
- `lastMessage` is always the newest message of its chat.

Queries are functions over a snapshot of that state.

## Model

| member | source | states |
|---|---|---|
| Paging.Window | controllers/chatController.js:116-117 | `.skip(n).limit(m)` yields the elements from position n on, at most abs(m) of them (limit 0 means no limit), and stops only at the end or at the limit |
| Paging.TotalPages | controllers/chatController.js:125 | `Math.ceil(total / limit)`: p is the least page count with total <= p * limit; a limit of 0 gives no number |
| Paging.Reverse | controllers/chatController.js:122 | `messages.reverse()`: element i of the result is element n-1-i of the input |
| Paging.NewestPageIsSlice | controllers/chatController.js:113-122 | a newest-first page, turned back, is one contiguous run of the oldest-first sequence, ending `skip` before the newest element |
| Paging.Filter | controllers/listingController.js:57 | `find(filter)` keeps exactly the elements that pass, and no more than it was given |
| Paging.FilterCounts | controllers/listingController.js:57 | each element that passes is kept as often as the input holds it, and every other element is dropped |
| Paging.FilterBoth | controllers/chatController.js:188-192 | filtering on a conjunction is filtering on one condition and then on the other |
| Paging.FilterKeepsIncreasing | controllers/chatController.js:113 | a filter keeps natural order: a sequence strictly increasing in a key stays so after filtering |
| Sorting.SortBy | controllers/listingController.js:58 | `.sort(option)` returns a permutation of its input that is ordered by the key |
| Sorting.SortByKeepsElements | controllers/chatController.js:41 | sorting neither adds nor loses a document |
| Validation.TrimStart | middleware/chatMiddleware.js:7 | removes exactly the leading white space: the result is a suffix, starts with a non-blank unit, and what was removed is blank |
| Validation.TrimEnd | middleware/chatMiddleware.js:7 | removes exactly the trailing white space, symmetrically |
| Validation.Trim | middleware/chatMiddleware.js:7 | `text.trim()` is empty exactly when the text is all white space, and otherwise neither starts nor ends with white space |
| Validation.Utf16Length | middleware/chatMiddleware.js:11 | `text.length` counts UTF-16 code units: one per character up to U+FFFF and two above; it equals the character count exactly when no character is above U+FFFF |
| Validation.Utf16LengthAppend | middleware/chatMiddleware.js:11 | the length of a concatenation is the sum of the lengths |
| Validation.ValidateMessage | middleware/chatMiddleware.js:4-16 | passes exactly a present, non-blank text of at most 1000 UTF-16 code units; otherwise 400 "Message text is required" for missing or blank text, and else 400 "Message too long" |
| Validation.LengthJudgedUntrimmed | middleware/chatMiddleware.js:11-13 | the 1000 bound counts surrounding blanks: a padded text of exactly 1000 code units passes and of 1001 is too long |
| Validation.AstralCountsTwice | middleware/chatMiddleware.js:11-13 | 501 characters above U+FFFF (1002 code units) are too long, while 1000 characters below it pass |
| Uploads.LastIndexOf | utils/chatUploadMiddleware.js:23 | finds the last occurrence of a character, or reports that there is none |
| Uploads.BaseName | utils/chatUploadMiddleware.js:23 | the last path segment (after trailing slashes are stripped) contains no '/' |
| Uploads.ExtName | utils/chatUploadMiddleware.js:16 | `path.extname` is empty or a '.' followed by no further '.' or '/', and is a suffix of the last path segment |
| Uploads.ToLowerAscii | utils/chatUploadMiddleware.js:23 | `toLowerCase` keeps the length and lowers each ASCII capital |
| Uploads.FileFilter | utils/chatUploadMiddleware.js:21-25 | the filter accepts a name only when its lower-cased `path.extname` is on the allow-list, so an accepted name has an extension of 4 or 5 characters starting with '.' |
| Uploads.StoredName | utils/chatUploadMiddleware.js:15-18 | the stored name starts with `chat-` and ends with the original name's extension |
| Uploads.LastExtensionDecides | utils/chatUploadMiddleware.js:16 | `extname(stem + "." + ext)` is "." + ext when the stem is non-empty and does not end in '/', and empty otherwise |
| Uploads.FilterByLastExtension | utils/chatUploadMiddleware.js:21-25 | such a file is accepted exactly when the stem is a real name and ".ext" lower-cased is on the allow-list |
| Uploads.UpperCaseAccepted | utils/chatUploadMiddleware.js:23 | matching ignores case: `name.PNG` is accepted |
| Uploads.InnerExtensionIgnored | utils/chatUploadMiddleware.js:23-24 | only the last extension counts: `x.exe.pdf` is accepted |
| Uploads.LastExtensionRefused | utils/chatUploadMiddleware.js:23-24 | `x.pdf.exe` is refused |
| Uploads.DotFileRefused | utils/chatUploadMiddleware.js:23-24 | a name whose only dot leads, such as `.png`, has no extension and is refused |
| Uploads.NoDotRefused | utils/chatUploadMiddleware.js:23-24 | a name without a dot is refused |
| Uploads.StoredNameKeepsExtension | utils/chatUploadMiddleware.js:15-18 | the stored name `chat-<time>-<rand><ext>` has the original file's extension |
| Uploads.SingleUpload | utils/chatUploadMiddleware.js:20-25 | the filter runs first and drops a refused file silently; an accepted file over 10485760 bytes is an error; otherwise the file is stored under the generated name with its MIME type and original name |
| Chats.FindChat | controllers/chatController.js:9-11 | the first chat in creation order whose members include both users, or none when no chat does |
| Chats.IsMember | controllers/chatController.js:109 | the chat exists and the user is one of its members |
| Chats.HasBoth | controllers/chatController.js:9-11 | `{members: {$all: [a, b]}}` holds exactly when both users are members, and with a == b exactly when that one user is |
| Chats.FindChatSymmetric | controllers/chatController.js:9-11 | the lookup gives the same chat whichever user asks |
| Chats.CreatedChatIsFound | controllers/chatController.js:9-23 | after a chat is created for a pair, the lookup finds it in either order, so find-or-create never creates twice |
| Chats.SelfAccessMatchesAnyChat | controllers/chatController.js:9-11 | asking for a chat with oneself matches the caller's first chat, whoever else is in it |
| Chats.UnreadCount | controllers/chatController.js:46-50 | the count of the chat's messages the viewer neither sent nor read: at most the log's length, and zero exactly when there is none |
| Chats.MarkedRead | controllers/chatController.js:147-155 | every message of the chat the reader had not read gains the reader; every other message is unchanged |
| Chats.MarkReadClearsUnread | controllers/chatController.js:147-155 | after marking, the reader's unread count in that chat is 0 |
| Chats.MarkReadIdempotent | controllers/chatController.js:147-155 | marking a second time changes nothing |
| Chats.MarkReadOnlyAddsReader | controllers/chatController.js:147-155 | marking changes only `readBy`, only in that chat, and only by appending the reader |
| Chats.MarkReadKeepsOtherCounts | controllers/chatController.js:147-155 | marking changes no other user's unread count and no count in another chat |
| Chats.UnreadAfterSend | controllers/chatController.js:78-83 | a new message raises every other user's unread count in its chat by one and changes no other count |
| Chats.SoftDeleted | controllers/chatController.js:220-222 | the deleted message shows the placeholder and is flagged, and keeps its id, chat, sender, `readBy`, type, attachment and `createdAt`; every other message is unchanged |
| Chats.DeleteKeepsUnread | controllers/chatController.js:46-50 | a deleted message still counts as unread, since the count ignores `isDeleted` |
| Chats.MemberEntries | controllers/chatController.js:35 | the caller's chats in a range of ids, each once, in id order, each with its unread count |
| Chats.UserChats | controllers/chatController.js:33-57 | exactly the caller's chats, each once, each with its unread count, ordered by `updatedAt` descending |
| Chats.NewestChatHeadsList | controllers/chatController.js:41 | the chat updated most recently comes first in each member's list |
| Chats.ChatMessages | controllers/chatController.js:113 | exactly the messages of the chat |
| Chats.ChatMessagesCounts | controllers/chatController.js:113 | the chat's messages hold each message of the chat as often as the log does, and nothing else |
| Chats.LogAscending | controllers/chatController.js:113 | in a consistent store the log is in strictly increasing id order |
| Chats.ChatMessagesAscending | controllers/chatController.js:113 | a chat's messages come in creation order: ids strictly increase |
| Chats.IdOrderIsTimeOrder | controllers/chatController.js:115 | of two logged messages, the one with the smaller id has the earlier or equal `createdAt` |
| Chats.GetMessages | controllers/chatController.js:102-133 | 403 for a non-member; then 500 for a negative skip; otherwise a page of at most `limit` of the chat's messages, with `totalMessages` = the chat's message count and `totalPages` = ceil(total / limit) |
| Chats.HistoryIsNewestRun | controllers/chatController.js:113-122 | a history page is the contiguous run of the chat's messages, oldest first, ending `(page - 1) * limit` before the newest, and it holds `limit` messages unless it reaches the oldest one |
| Chats.HistoryOldestFirst | controllers/chatController.js:113-122 | every history page is oldest first: ids strictly increase along it and `createdAt` never decreases |
| Chats.HistoryOfHundredTwenty | controllers/chatController.js:104-126 | a 120-message chat with the default limit has 3 pages: page 1 is the 50 newest, page 3 the 20 oldest |
| Chats.SearchHit | controllers/chatController.js:188-192 | the search filter holds exactly for a message of the chat that is not deleted and whose text matches |
| Chats.SearchHitsOfChat | controllers/chatController.js:188-192 | the hits are the chat's messages, in their order, without the deleted and the non-matching ones |
| Chats.SearchMessages | controllers/chatController.js:176-202 | 403 for a non-member; 500 "Search failed" for a negative skip, a missing `query` parameter or a bad pattern; otherwise at most `limit` hits, each a non-deleted message of the chat whose text matches |
| Chats.SearchIsNewestRun | controllers/chatController.js:188-196 | a search page, read oldest first, is a contiguous run of the hits ending `skip` hits before the newest, and it holds `limit` hits unless it reaches the oldest one |
| Chats.SearchNewestFirst | controllers/chatController.js:194-196 | the first page holds the min(20, hits) newest hits, newest first |
| Chats.SearchPageNewestFirst | controllers/chatController.js:188-196 | every search page is newest first: ids strictly decrease along it and `createdAt` never increases |
| Chats.Touched | controllers/chatController.js:89-92 | posting points the chat's `lastMessage` at the new message and sets `updatedAt` to now; its members and every other chat are unchanged |
| Chats.IsImage | controllers/chatController.js:289 | `startsWith('image/')`: the MIME type is "image/" followed by anything |
| Chats.FileCaption | controllers/chatController.js:294 | the caller's text when it is truthy, else "Shared a photo" for an image type and "Shared a file" otherwise; never empty |
| Chats.PostKeepsConsistent | controllers/chatController.js:78-92 | appending a well-formed message stamped now and touching its chat keeps every chat's `lastMessage` on its newest message and the log in time order |
| Chats.MarkedReadConsistent | controllers/chatController.js:147-155 | marking messages read keeps the store invariant |
| Chats.SoftDeletedConsistent | controllers/chatController.js:220-222 | soft deletion keeps the store invariant |
| Chats.MarkAll | controllers/chatController.js:147-155 | the `updateMany` pass over the log, message by message, yields exactly `MarkedRead` of the log |
| Chats.Store.AccessChat | controllers/chatController.js:5-30 | returns the existing chat of the pair unchanged, or creates exactly one chat `[caller, other]` under the next id; the result always has both members |
| Chats.Store.Post | controllers/chatController.js:78-92 | appends the message and points the chat's `lastMessage` at it, keeping the store invariant |
| Chats.Store.SendMessage | controllers/chatController.js:67-99 | 403 with no change for a non-member; 500 with no change for a missing text; else appends one text message from the caller, read by the caller only and not deleted, moves `lastMessage` and `updatedAt`, and answers 201 |
| Chats.Store.SendFileMessage | controllers/chatController.js:274-314 | 400 "No file uploaded" before the membership check; 403 for a non-member; else appends an image message exactly when the MIME type starts with `image/` (a file message otherwise), with the attachment and the caption |
| Chats.Store.PostTextMessage | routes/chatRoutes.js:27 | the validator answers 400 before the membership check, with no change; a valid text from a member is appended as a text message from the caller, read by the caller only, not deleted, stamped now, of at most 1000 code units; the chat is touched; blocks and the chat counter are unchanged |
| Chats.Store.PostFileMessage | routes/chatRoutes.js:30 | a refused file gives 400 "No file uploaded"; an oversized accepted file gives 500 with Express's default error page, which carries no JSON `message`; a stored file from a member is appended as an image or file message from the caller, read by the caller only, with the caption and the attachment under its generated name; the chat is touched; blocks and the chat counter are unchanged |
| Chats.Store.MarkMessagesAsRead | controllers/chatController.js:136-162 | 403 with no change for a non-member; else the log becomes `MarkedRead` of the old log (computed by `MarkAll`) and nothing else changes |
| Chats.Store.DeleteMessage | controllers/chatController.js:205-228 | 404 for an unknown id, 403 for a caller who is not the sender, each with no change; else the log becomes `SoftDeleted` of the old log |
| Chats.Store.BlockUser | controllers/chatController.js:233-256 | 400 "User already blocked" with no change for a repeat; else adds exactly that pair |
| Chats.Store.UnblockUser | controllers/chatController.js:258-271 | removes the pair if present and always answers 200 |
| Sockets.Server.InRoom | app.js:56 | `io.to(room)` reaches exactly the connected sockets that joined the room |
| Sockets.Server.Connect | app.js:37 | a new connection is live and in its own room only |
| Sockets.Server.Join | app.js:41-50 | the socket joins the user's room, `connectedUsers[u] = s` and `userSockets[s] = u` (the last join wins), and `userOnline` goes to every other live socket |
| Sockets.Server.SendMessage | app.js:53-77 | `receiveMessage` with the client-supplied sender goes to exactly the receiver's room; `messageSent` with status "delivered" goes to the sender's socket only; nothing changes |
| Sockets.Server.MarkAsRead | app.js:80-83 | `messagesRead` goes to the chat's room except the sending socket; nothing changes |
| Sockets.Server.Typing | app.js:86-88 | `userTyping` goes to the chat's room except the sending socket; nothing changes |
| Sockets.Server.JoinChat | app.js:91-94 | the socket is in the room afterwards; no other room and neither map changes |
| Sockets.Server.LeaveChat | app.js:97-100 | the socket is out of the room afterwards, a no-op when it was not in it; no other room and neither map changes |
| Sockets.Server.Disconnect | app.js:103-113 | the socket leaves every room; when it had joined as a non-empty user id, both entries of that user are removed and one `userOffline` goes to every other socket; otherwise the maps are unchanged and nothing is emitted |
| Sockets.TwoSocketsOneUser | app.js:103-110 | with two sockets of one user, closing the first emits `userOffline` and drops the user from `connectedUsers`, although the second socket is still in the user's room |
| Sockets.EmptyUserIdLingers | app.js:105 | a socket that joined with the empty id stays in `userSockets` after it disconnects, and no event is sent |
| Listings.ParseCategory | models/Listing.js:8-13 | the enum check: a category whose name is the string, or none when no category has that name |
| Listings.ParseCategoryName | models/Listing.js:11 | every category name is accepted as that category |
| Listings.CastPrice | models/Listing.js:6 | a JSON number is the price itself; a missing or empty price has no value |
| Listings.NewListing | controllers/listingController.js:7-19 | created exactly when the title is non-empty, the price casts, and the category is absent or valid; the owner is the caller, the image is the upload or none, and the category defaults to `Other` |
| Listings.Merged | controllers/listingController.js:94-102 | each field takes the request's value only when it is truthy; the image changes only with an upload; the owner, id and creation time never change; a bad new category or price fails |
| Listings.FalsyValuesKeepOld | controllers/listingController.js:94-96 | an empty title and a price of 0 keep the stored title and price |
| Listings.EmptyFormKeepsListing | controllers/listingController.js:94-102 | an empty form with no upload leaves the listing as it was |
| Listings.SelectSort | controllers/listingController.js:49-52 | `price_asc`, `price_desc` and `oldest` select their orders, and any other value selects newest first |
| Listings.SortKey | controllers/listingController.js:49-52 | each sort option's key: the price, the negated price, the creation time or the negated creation time |
| Listings.SortKeyMeaning | controllers/listingController.js:49-52 | one listing's key is at most another's exactly when their prices or creation times are in the order's direction |
| Listings.Matches | controllers/listingController.js:33-46 | the query filter: the category name is equal when a category is given, and the search matches the title or the description when a search is given |
| Listings.CategoryFilterSelects | controllers/listingController.js:36-38 | a matching listing's category is the one the filter names, so a name of no category matches nothing; with neither filter every listing matches |
| Listings.GetListings | controllers/listingController.js:29-78 | 500 for a negative skip or a bad search pattern; otherwise at most `limit` matching listings in the selected order, with `totalItems` = the filtered count and `totalPages` = ceil(totalItems / limit) |
| Listings.Results | controllers/listingController.js:57-58 | the matching listings, ordered by the selected sort key |
| Listings.ResultsArePermutation | controllers/listingController.js:57-58 | the results hold every matching listing as often as the collection does, and nothing else |
| Listings.ResultsWindow | controllers/listingController.js:57-61 | a page holds only matching listings, in the selected order |
| Listings.NoCriteriaMatchesAll | controllers/listingController.js:33-46 | with no category and no search text, every listing matches, in natural order |
| Listings.ListingPageIsSlice | controllers/listingController.js:55-60 | the page is the contiguous run of the ordered results starting at `(page - 1) * limit`, cut short only by their end |
| Listings.PriceSortOrdersPage | controllers/listingController.js:49-61 | on every page, `price_asc` orders by price ascending, `price_desc` descending, `oldest` by creation ascending, and the default by creation descending |
| Listings.Collection | controllers/listingController.js:57 | the stored listings in id order, each once |
| Listings.CreatedListingComesLast | controllers/listingController.js:12-19 | storing a new listing under the next id appends it to the collection in natural order |
| Listings.Catalogue.CreateListing | controllers/listingController.js:5-26 | stores `NewListing` under the next id and answers 201, the new listing coming last in the collection, or answers 500 with no change |
| Listings.Catalogue.UpdateListing | controllers/listingController.js:81-110 | 404 for an unknown id, 403 for a non-owner, each with no change; else the listing becomes `Merged` of the old one, or 500 with no change |
| Listings.Catalogue.DeleteListing | controllers/listingController.js:113-132 | 404 and 403 as for update; else removes exactly that listing |

## Left out

- Authentication (`protect`) is not modelled: the caller's user id is an argument of each handler.
- The message rate limit (30 messages per 60000 ms, middleware/chatMiddleware.js:19-23) is not modelled. It is a time-windowed library whose implementation is not part of this model. `Chats.Store.PostTextMessage` and `Chats.Store.PostFileMessage` model the rest of their route chains.
- `populate` of sender, member and owner details is not modelled, nor is `toObject`. Replies carry ids.
- Database failures are not modelled, so neither is the generic 500 "Server error" they cause. Only the failures the handlers' inputs decide are modelled: schema validation, a negative skip, a bad pattern, and multer's size error.
- Malformed ids are not modelled. An id that is not an ObjectId makes the database fail with 500, not answer 404 or 403.
- Non-numeric `page` and `limit` strings (NaN arithmetic) are not modelled, and neither are body fields that are not strings. `page` and `limit` are integers when present.
- `$regex` matching is the `Common.Regex` parameter: whether a pattern compiles, and whether it matches case-insensitively.
- `Date.now()` and `Math.random()` in stored file names are the `stamp` and `nonce` parameters. Multer's disk storage and the directory creation are not modelled.
- The listing image upload (`utils/uploadMiddleware.js`) is not part of this model. Its stored name is an argument.
- Listings' `updatedAt` timestamp is not modelled, since no handler reads it.
- `getOnlineUsers` is not modelled: it answers a fixed message.
- Server set-up (HTTP, CORS, static files, configuration, database connection, listening) is not modelled. The `messageError` branch of the socket `sendMessage` handler is not modelled either, because nothing in its body can fail.
- Concurrency: each handler runs to completion before the next starts. Two interleaved sends could leave `lastMessage` pointing at the older message. The model does not capture this, and the invariant that `lastMessage` is the newest message relies on it.
- The database's order among documents with equal sort keys is unspecified. The model keeps creation order among them. Newest-first history and search are the reverse of creation order, which agrees with `createdAt` descending because `createdAt` never decreases along the log.
- `toLowerCase` is ASCII lowering. The only non-ASCII character that lowers into ASCII is U+212A (Kelvin sign, to 'k'), and no allowed extension contains 'k'.
- Chats.SearchMessages: its contract bounds the page and says what every hit is. Which hits a page holds is stated separately, by `Chats.SearchIsNewestRun` and `Chats.SearchNewestFirst`, and their order by `Chats.SearchPageNewestFirst`.
- Chats.GetMessages: its contract bounds the page and its pagination block. Which messages the page holds is stated separately, by `Chats.HistoryIsNewestRun`, and their order by `Chats.HistoryOldestFirst`.

## Where the code differs from the intended behaviour

The model follows the code in each case.

- **Disconnect with two connections.** Disconnecting one of two connections of the same user is meant to broadcast no `userOffline`. In the code, the first socket's disconnect finds its user in `userSockets` and broadcasts `userOffline`. It also removes the user from `connectedUsers` although another socket is live (`Sockets.TwoSocketsOneUser`).
- **Refused uploads.** A refused upload is meant to be reported as a validation error. In the code, the filter drops the file silently and the handler answers 400 "No file uploaded" (`Chats.Store.PostFileMessage`).
- **Chat members.** A chat is meant to have exactly two distinct members. In the code, a user can ask for a chat with themselves. The lookup then matches any chat of theirs (`Chats.SelfAccessMatchesAnyChat`), and a new chat can have the same user twice.
- **Blocking.** Block records are stored but no send or access path consults them, so a blocked user can still message the blocker.
- **Socket sender.** The socket `sendMessage` handler relays the sender id the client supplies, without checking it against the id the socket joined with.
