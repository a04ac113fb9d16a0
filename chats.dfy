/** The chat service behind `/api/chats` (`chatController`, with the two middleware chains in
    front of its send routes): one-to-one chats, a message log with read receipts and soft
    deletion, and block records.

    Documents are numbered in creation order: a chat id is the counter value at its creation and
    a message id is its position in the message log. The database's natural order is therefore
    creation order, and a message's `createdAt` never decreases along the log. */
module Chats {
  import opened Common
  import opened Paging
  import opened Sorting
  import opened Validation
  import opened Uploads

  type UserId = string
  type ChatId = nat
  type MessageId = nat

  const DeletedText := "This message was deleted"
  const NoFileUploaded := "No file uploaded"
  const AlreadyBlocked := "User already blocked"
  const MessageNotFound := "Message not found"
  const SearchFailed := "Search failed"
  const MarkedAsRead := "Messages marked as read"
  const MessageDeleted := "Message deleted"
  const UserBlocked := "User blocked"
  const UserUnblocked := "User unblocked"
  const HistoryPageSize := 50
  const SearchPageSize := 20

  datatype Chat = Chat(members: seq<UserId>, lastMessage: Option<MessageId>, updatedAt: int)

  datatype MessageType = Text | Image | File | System

  /** `fileUrl` (the stored name), `fileType` (the MIME type) and `fileName` (the client's name). */
  datatype Attachment = Attachment(fileUrl: string, fileType: string, fileName: string)

  datatype Message = Message(
    id: MessageId,
    chat: ChatId,
    sender: UserId,
    text: string,
    readBy: seq<UserId>,
    isDeleted: bool,
    messageType: MessageType,
    attachment: Option<Attachment>,
    createdAt: int)

  datatype Block = Block(blocker: UserId, blocked: UserId)

  // ---------------------------------------------------------------- membership and lookup

  /** The chat exists and `u` is one of its members: the guard in front of every chat route. */
  predicate IsMember(chats: map<ChatId, Chat>, c: ChatId, u: UserId) {
    c in chats && u in chats[c].members
  }

  /** The filter `{members: {$all: [a, b]}}`: every id of the list is a member. A repeated id
      asks for that one member only. */
  predicate HasBoth(chats: map<ChatId, Chat>, c: ChatId, a: UserId, b: UserId): (r: bool)
    ensures r <==> IsMember(chats, c, a) && IsMember(chats, c, b)
    ensures a == b ==> (r <==> IsMember(chats, c, a))
  {
    forall u :: u in [a, b] ==> IsMember(chats, c, u)
  }

  function FindChatFrom(chats: map<ChatId, Chat>, k: nat, bound: nat, a: UserId, b: UserId): (r: Option<ChatId>)
    ensures r.Some? ==> k <= r.value < bound && HasBoth(chats, r.value, a, b)
    ensures r.Some? ==> forall j :: k <= j < r.value ==> !HasBoth(chats, j, a, b)
    ensures r.None? ==> forall j :: k <= j < bound ==> !HasBoth(chats, j, a, b)
    decreases bound - k
  {
    if k >= bound then None
    else if HasBoth(chats, k, a, b) then Some(k)
    else FindChatFrom(chats, k + 1, bound, a, b)
  }

  /** `Chat.findOne({members: {$all: [a, b]}})` over the chats numbered below `bound`: the first
      chat, in creation order, whose members include both users. */
  function FindChat(chats: map<ChatId, Chat>, bound: nat, a: UserId, b: UserId): (r: Option<ChatId>)
    ensures r.Some? ==> r.value < bound && HasBoth(chats, r.value, a, b)
    ensures r.Some? ==> forall j: nat :: j < r.value ==> !HasBoth(chats, j, a, b)
    ensures r.None? <==> forall j: nat :: j < bound ==> !HasBoth(chats, j, a, b)
  {
    FindChatFrom(chats, 0, bound, a, b)
  }

  /** The lookup does not depend on which of the two users asks. */
  lemma FindChatSymmetric(chats: map<ChatId, Chat>, bound: nat, a: UserId, b: UserId)
    ensures FindChat(chats, bound, a, b) == FindChat(chats, bound, b, a)
  {
    var r, s := FindChat(chats, bound, a, b), FindChat(chats, bound, b, a);
    if r.Some? {
      assert HasBoth(chats, r.value, b, a);
    }
    if s.Some? {
      assert HasBoth(chats, s.value, a, b);
    }
  }

  /** Find-or-create is idempotent: once the chat `[a, b]` has been created under the next id,
      the lookup finds it, in either argument order, so a repeated call creates nothing. */
  lemma {:induction false} CreatedChatIsFound(chats: map<ChatId, Chat>, bound: nat, a: UserId, b: UserId, now: int)
    requires forall k :: k in chats ==> k < bound
    requires FindChat(chats, bound, a, b).None?
    ensures var created := chats[bound := Chat([a, b], None, now)];
      && FindChat(created, bound + 1, a, b) == Some(bound)
      && FindChat(created, bound + 1, b, a) == Some(bound)
  {
    var created := chats[bound := Chat([a, b], None, now)];
    forall j: nat | j < bound ensures !HasBoth(created, j, a, b) && !HasBoth(created, j, b, a) {
      assert !HasBoth(chats, j, a, b);
    }
    assert HasBoth(created, bound, a, b) && HasBoth(created, bound, b, a);
    FindChatSymmetric(created, bound + 1, a, b);
  }

  /** Asking for a chat with oneself matches the first chat the caller belongs to, whoever the
      other member is: `$all` of a repeated id only asks for that id once. */
  lemma SelfAccessMatchesAnyChat(chats: map<ChatId, Chat>, bound: nat, a: UserId, c: ChatId)
    requires c < bound && IsMember(chats, c, a)
    ensures FindChat(chats, bound, a, a).Some?
    ensures FindChat(chats, bound, a, a).value <= c
  {
    assert HasBoth(chats, c, a, a);
  }

  // ---------------------------------------------------------------- unread counts

  /** The filter `{chat: c, sender: {$ne: v}, readBy: {$ne: v}}`. */
  predicate UnreadBy(m: Message, c: ChatId, v: UserId) {
    m.chat == c && m.sender != v && v !in m.readBy
  }

  /** `Message.countDocuments` of the messages of chat `c` that `v` neither sent nor read. */
  function UnreadCount(ms: seq<Message>, c: ChatId, v: UserId): (n: nat)
    ensures n <= |ms|
    ensures n == 0 <==> forall i :: 0 <= i < |ms| ==> !UnreadBy(ms[i], c, v)
  {
    if ms == [] then 0
    else UnreadCount(ms[..|ms| - 1], c, v) + (if UnreadBy(ms[|ms| - 1], c, v) then 1 else 0)
  }

  /** `$addToSet: {readBy: v}` applied to the messages of chat `c` that `v` has not read. */
  function MarkOne(m: Message, c: ChatId, v: UserId): Message {
    if m.chat == c && v !in m.readBy then m.(readBy := m.readBy + [v]) else m
  }

  /** The log after `updateMany({chat: c, readBy: {$ne: v}}, {$addToSet: {readBy: v}})`. */
  function MarkedRead(ms: seq<Message>, c: ChatId, v: UserId): (r: seq<Message>)
    ensures |r| == |ms|
    ensures forall i :: 0 <= i < |ms| ==> r[i] == MarkOne(ms[i], c, v)
  {
    seq(|ms|, i requires 0 <= i < |ms| => MarkOne(ms[i], c, v))
  }

  /** After marking, the reader has nothing unread in that chat. */
  lemma MarkReadClearsUnread(ms: seq<Message>, c: ChatId, v: UserId)
    ensures UnreadCount(MarkedRead(ms, c, v), c, v) == 0
  {
    var r := MarkedRead(ms, c, v);
    forall i | 0 <= i < |r| ensures !UnreadBy(r[i], c, v) {
      assert r[i] == MarkOne(ms[i], c, v);
    }
  }

  /** Marking twice is marking once. */
  lemma MarkReadIdempotent(ms: seq<Message>, c: ChatId, v: UserId)
    ensures MarkedRead(MarkedRead(ms, c, v), c, v) == MarkedRead(ms, c, v)
  {
  }

  /** Marking touches only `readBy`, only in chat `c`, and only by appending the reader. */
  lemma MarkReadOnlyAddsReader(ms: seq<Message>, c: ChatId, v: UserId, i: nat)
    requires i < |ms|
    ensures var m := MarkedRead(ms, c, v)[i];
      && m == ms[i].(readBy := m.readBy)
      && (ms[i].chat != c ==> m == ms[i])
      && (m.readBy == ms[i].readBy || m.readBy == ms[i].readBy + [v])
      && (v in m.readBy <==> v in ms[i].readBy || ms[i].chat == c)
  {
  }

  /** Marking by `v` in chat `c` changes no other user's unread count, and no count in another chat. */
  lemma {:induction false} MarkReadKeepsOtherCounts(ms: seq<Message>, c: ChatId, v: UserId, c2: ChatId, w: UserId)
    requires c2 != c || w != v
    ensures UnreadCount(MarkedRead(ms, c, v), c2, w) == UnreadCount(ms, c2, w)
  {
    if ms != [] {
      var n := |ms| - 1;
      var r := MarkedRead(ms, c, v);
      MarkReadKeepsOtherCounts(ms[..n], c, v, c2, w);
      assert r[..n] == MarkedRead(ms[..n], c, v);
      assert UnreadBy(r[n], c2, w) == UnreadBy(ms[n], c2, w) by {
        assert r[n] == MarkOne(ms[n], c, v);
      }
      assert UnreadCount(r, c2, w) == UnreadCount(r[..n], c2, w) + (if UnreadBy(r[n], c2, w) then 1 else 0);
    }
  }

  /** A new message raises the unread count of every other user by one in its own chat, and
      changes nothing else. */
  lemma UnreadAfterSend(ms: seq<Message>, m: Message, c: ChatId, w: UserId)
    requires m.readBy == [m.sender]
    ensures UnreadCount(ms + [m], c, w) == UnreadCount(ms, c, w) + (if m.chat == c && w != m.sender then 1 else 0)
  {
    assert (ms + [m])[..|ms|] == ms;
  }

  /** The log after `deleteMessage` on message `i`: the text is replaced and the flag set. */
  function SoftDeleted(ms: seq<Message>, i: nat): (r: seq<Message>)
    requires i < |ms|
    ensures |r| == |ms| && r[i].isDeleted && r[i].text == DeletedText
    ensures r[i].id == ms[i].id && r[i].chat == ms[i].chat && r[i].sender == ms[i].sender
    ensures r[i].readBy == ms[i].readBy && r[i].messageType == ms[i].messageType
    ensures r[i].attachment == ms[i].attachment && r[i].createdAt == ms[i].createdAt
    ensures forall j :: 0 <= j < |ms| && j != i ==> r[j] == ms[j]
  {
    ms[i := ms[i].(text := DeletedText, isDeleted := true)]
  }

  /** A deleted message still counts as unread: the count filter does not look at `isDeleted`. */
  lemma {:induction false} DeleteKeepsUnread(ms: seq<Message>, i: nat, c: ChatId, w: UserId)
    requires i < |ms|
    ensures UnreadCount(SoftDeleted(ms, i), c, w) == UnreadCount(ms, c, w)
  {
    var n := |ms| - 1;
    var r := SoftDeleted(ms, i);
    if i < n {
      DeleteKeepsUnread(ms[..n], i, c, w);
      assert r[..n] == SoftDeleted(ms[..n], i);
    } else {
      assert r[..n] == ms[..n];
    }
  }

  // ---------------------------------------------------------------- the chat list

  /** One element of the `getUserChats` reply: the chat and the caller's unread count in it. */
  datatype ChatEntry = ChatEntry(id: ChatId, chat: Chat, unreadCount: nat)

  function Entry(chats: map<ChatId, Chat>, ms: seq<Message>, c: ChatId, v: UserId): ChatEntry
    requires c in chats
  {
    ChatEntry(c, chats[c], UnreadCount(ms, c, v))
  }

  /** The entries of the chats numbered `k` to `bound - 1` that `v` belongs to, in id order. */
  function MemberEntries(chats: map<ChatId, Chat>, ms: seq<Message>, k: nat, bound: nat, v: UserId): (r: seq<ChatEntry>)
    ensures forall e :: e in r ==> k <= e.id < bound && IsMember(chats, e.id, v) && e == Entry(chats, ms, e.id, v)
    ensures forall j :: k <= j < bound && IsMember(chats, j, v) ==> Entry(chats, ms, j, v) in r
    ensures Increasing(r, (e: ChatEntry) => e.id)
    decreases bound - k
  {
    if k >= bound then []
    else
      var rest := MemberEntries(chats, ms, k + 1, bound, v);
      if IsMember(chats, k, v) then
        assert forall i :: 0 <= i < |rest| ==> rest[i] in rest;
        [Entry(chats, ms, k, v)] + rest
      else rest
  }

  function RecencyKey(e: ChatEntry): real {
    -(e.chat.updatedAt as real)
  }

  /** `getUserChats`: every chat numbered below `bound` that `v` belongs to, once, with its unread
      count, most recently updated first (ties in creation order). */
  function UserChats(chats: map<ChatId, Chat>, bound: nat, ms: seq<Message>, v: UserId): (r: seq<ChatEntry>)
    ensures forall e :: e in r <==> e.id < bound && IsMember(chats, e.id, v) && e == Entry(chats, ms, e.id, v)
    ensures forall i, j :: 0 <= i < j < |r| ==> r[i].id != r[j].id
    ensures forall i, j :: 0 <= i < j < |r| ==> r[i].chat.updatedAt >= r[j].chat.updatedAt
  {
    var entries := MemberEntries(chats, ms, 0, bound, v);
    var r := SortBy(entries, RecencyKey);
    forall e ensures e in r <==> e in entries {
      SortByKeepsElements(entries, RecencyKey, e);
    }
    assert Distinct(entries) by {
      forall i, j | 0 <= i < j < |entries| ensures entries[i] != entries[j] {
        assert entries[i].id < entries[j].id;
      }
    }
    SortByKeepsDistinct(entries, RecencyKey);
    forall i, j | 0 <= i < j < |r| ensures r[i].id != r[j].id {
      assert r[i] in r && r[j] in r;
    }
    forall i, j | 0 <= i < j < |r| ensures r[i].chat.updatedAt >= r[j].chat.updatedAt {
      assert RecencyKey(r[i]) <= RecencyKey(r[j]);
    }
    r
  }

  /** A chat whose `updatedAt` is the newest of all heads the list of each of its members. */
  lemma NewestChatHeadsList(chats: map<ChatId, Chat>, bound: nat, ms: seq<Message>, v: UserId, c: ChatId)
    requires c < bound && IsMember(chats, c, v)
    requires forall k :: k in chats ==> chats[k].updatedAt <= chats[c].updatedAt
    ensures var r := UserChats(chats, bound, ms, v);
      |r| > 0 && r[0].chat.updatedAt == chats[c].updatedAt
  {
    var r := UserChats(chats, bound, ms, v);
    assert Entry(chats, ms, c, v) in r;
    assert r[0] in r;
  }

  // ---------------------------------------------------------------- history and search

  function InChat(c: ChatId): Message -> bool {
    (m: Message) => m.chat == c
  }

  /** `Message.find({chat: c})` in natural (creation) order. */
  function ChatMessages(ms: seq<Message>, c: ChatId): (r: seq<Message>)
    ensures forall m :: m in r <==> m in ms && m.chat == c
  {
    Filter(ms, InChat(c))
  }

  /** A chat's messages hold each message of the chat as often as the log does, and nothing else. */
  lemma ChatMessagesCounts(ms: seq<Message>, c: ChatId)
    ensures forall m :: multiset(ChatMessages(ms, c))[m] == if m.chat == c then multiset(ms)[m] else 0
  {
    FilterCounts(ms, InChat(c));
  }

  function IdKey(m: Message): int {
    m.id
  }

  /** The log of a consistent store is in id order. */
  lemma LogAscending(chats: map<ChatId, Chat>, next: nat, ms: seq<Message>, clock: int)
    requires Consistent(chats, next, ms, clock)
    ensures Increasing(ms, IdKey)
  {
    forall i, j | 0 <= i < j < |ms| ensures IdKey(ms[i]) < IdKey(ms[j]) {
      assert WellFormed(ms[i], i, chats, clock) && WellFormed(ms[j], j, chats, clock);
    }
  }

  /** A chat's messages come in creation order: their ids strictly increase. */
  lemma ChatMessagesAscending(chats: map<ChatId, Chat>, next: nat, ms: seq<Message>, clock: int, c: ChatId)
    requires Consistent(chats, next, ms, clock)
    ensures Increasing(ChatMessages(ms, c), IdKey)
  {
    LogAscending(chats, next, ms, clock);
    FilterKeepsIncreasing(ms, InChat(c), IdKey);
  }

  /** Messages listed oldest first: ids strictly increase and `createdAt` never decreases. */
  ghost predicate OldestFirst(page: seq<Message>) {
    forall i, j :: 0 <= i < j < |page| ==> page[i].id < page[j].id && page[i].createdAt <= page[j].createdAt
  }

  /** Of two logged messages, the one with the smaller id was not created later. */
  lemma IdOrderIsTimeOrder(chats: map<ChatId, Chat>, next: nat, ms: seq<Message>, clock: int, a: Message, b: Message)
    requires Consistent(chats, next, ms, clock)
    requires a in ms && b in ms && a.id < b.id
    ensures a.createdAt <= b.createdAt
  {
    var i :| 0 <= i < |ms| && ms[i] == a;
    var j :| 0 <= j < |ms| && ms[j] == b;
    assert WellFormed(ms[i], i, chats, clock) && WellFormed(ms[j], j, chats, clock);
  }

  /** The pagination block of the history reply. */
  datatype Pagination = Pagination(currentPage: int, totalPages: Option<int>, totalMessages: nat)

  datatype HistoryPage = HistoryPage(messages: seq<Message>, pagination: Pagination)

  /** `getMessages`: the membership check, then `find({chat}).sort({createdAt: -1})`
      `.skip((page - 1) * limit).limit(limit)`, turned back to oldest first. A negative skip is a
      database error, answered with 500. */
  function GetMessages(chats: map<ChatId, Chat>, ms: seq<Message>, caller: UserId, c: ChatId,
                       page: Option<int>, limit: Option<int>): (r: Reply<HistoryPage>)
    ensures !IsMember(chats, c, caller) ==> r == Fail(403, NotAuthorized)
    ensures IsMember(chats, c, caller) ==>
      var p, l := page.GetOr(1), limit.GetOr(HistoryPageSize);
      && (!r.Ok? <==> Skip(p, l) < 0)
      && (!r.Ok? ==> r == Fail(500, ServerError))
      && (r.Ok? ==>
            && r.status == 200
            && r.value.pagination == Pagination(p, TotalPages(|ChatMessages(ms, c)|, l), |ChatMessages(ms, c)|)
            && (l != 0 ==> |r.value.messages| <= Abs(l))
            && forall m :: m in r.value.messages ==> m in ms && m.chat == c)
  {
    if !IsMember(chats, c, caller) then Fail(403, NotAuthorized)
    else
      var p, l := page.GetOr(1), limit.GetOr(HistoryPageSize);
      var skip := Skip(p, l);
      if skip < 0 then Fail(500, ServerError)
      else
        var all := ChatMessages(ms, c);
        var w := Window(Reverse(all), skip, l);
        var msgs := Reverse(w);
        ReverseMembers(all);
        WindowMembers(Reverse(all), skip, l);
        ReverseMembers(w);
        Ok(200, HistoryPage(msgs, Pagination(p, TotalPages(|all|, l), |all|)))
  }

  /** The reply of `getMessages` to a member asking for a page with a non-negative skip. */
  lemma HistoryReply(chats: map<ChatId, Chat>, ms: seq<Message>, caller: UserId, c: ChatId,
                     page: Option<int>, limit: Option<int>)
    requires IsMember(chats, c, caller)
    requires Skip(page.GetOr(1), limit.GetOr(HistoryPageSize)) >= 0
    ensures var all := ChatMessages(ms, c);
      var p, l := page.GetOr(1), limit.GetOr(HistoryPageSize);
      GetMessages(chats, ms, caller, c, page, limit)
        == Ok(200, HistoryPage(Reverse(Window(Reverse(all), Skip(p, l), l)), Pagination(p, TotalPages(|all|, l), |all|)))
  {
  }

  /** A history page is one contiguous run of the chat's messages, in creation order, ending
      `(page - 1) * limit` messages before the newest one; it is cut short of `limit` messages
      only by the oldest message. */
  lemma HistoryIsNewestRun(chats: map<ChatId, Chat>, ms: seq<Message>, caller: UserId, c: ChatId,
                           page: Option<int>, limit: Option<int>)
    requires GetMessages(chats, ms, caller, c, page, limit).Ok?
    ensures var all := ChatMessages(ms, c);
      var l := limit.GetOr(HistoryPageSize);
      var skip := Skip(page.GetOr(1), l);
      var msgs := GetMessages(chats, ms, caller, c, page, limit).value.messages;
      var hi := |all| - Min(skip, |all|);
      && |msgs| <= hi && msgs == all[hi - |msgs|..hi]
      && (skip + |msgs| >= |all| || (l != 0 && |msgs| == Abs(l)))
  {
    var all := ChatMessages(ms, c);
    var l := limit.GetOr(HistoryPageSize);
    var skip := Skip(page.GetOr(1), l);
    var msgs := GetMessages(chats, ms, caller, c, page, limit).value.messages;
    assert msgs == Reverse(Window(Reverse(all), skip, l)) by {
      HistoryReply(chats, ms, caller, c, page, limit);
    }
    NewestPageRun(all, skip, l, msgs);
  }

  /** A history page lists its messages oldest first: ids strictly increase along the page and
      `createdAt` never decreases. */
  lemma HistoryOldestFirst(chats: map<ChatId, Chat>, next: nat, ms: seq<Message>, clock: int, caller: UserId,
                           c: ChatId, page: Option<int>, limit: Option<int>)
    requires Consistent(chats, next, ms, clock)
    requires GetMessages(chats, ms, caller, c, page, limit).Ok?
    ensures OldestFirst(GetMessages(chats, ms, caller, c, page, limit).value.messages)
  {
    HistoryReply(chats, ms, caller, c, page, limit);
    var l := limit.GetOr(HistoryPageSize);
    PageOldestFirst(chats, next, ms, clock, c, Skip(page.GetOr(1), l), l);
  }

  /** A newest-first page of a chat's messages, turned back, is oldest first. */
  lemma PageOldestFirst(chats: map<ChatId, Chat>, next: nat, ms: seq<Message>, clock: int, c: ChatId,
                        skip: nat, limit: int)
    requires Consistent(chats, next, ms, clock)
    ensures OldestFirst(Reverse(Window(Reverse(ChatMessages(ms, c)), skip, limit)))
  {
    var all := ChatMessages(ms, c);
    var hi := |all| - Min(skip, |all|);
    var msgs := Reverse(Window(Reverse(all), skip, limit));
    NewestPageRun(all, skip, limit, msgs);
    RunOldestFirst(chats, next, ms, clock, c, all, hi - |msgs|, hi, msgs);
  }

  /** A run of a chat's messages is in ascending id and time order. */
  lemma RunOldestFirst(chats: map<ChatId, Chat>, next: nat, ms: seq<Message>, clock: int, c: ChatId,
                       all: seq<Message>, lo: nat, hi: nat, run: seq<Message>)
    requires Consistent(chats, next, ms, clock)
    requires all == ChatMessages(ms, c) && lo <= hi <= |all| && run == all[lo..hi]
    ensures OldestFirst(run)
  {
    ChatMessagesAscending(chats, next, ms, clock, c);
    RunIncreasing(all, lo, hi, IdKey);
    forall m | m in run ensures m in ms {
      var k :| 0 <= k < |run| && run[k] == m;
      assert all[lo + k] == m;
    }
    AscendingInTime(chats, next, ms, clock, run);
  }

  /** Logged messages in strictly increasing id order are in non-decreasing time order. */
  lemma AscendingInTime(chats: map<ChatId, Chat>, next: nat, ms: seq<Message>, clock: int, page: seq<Message>)
    requires Consistent(chats, next, ms, clock)
    requires Increasing(page, IdKey) && forall m :: m in page ==> m in ms
    ensures OldestFirst(page)
  {
    forall i, j | 0 <= i < j < |page| ensures page[i].id < page[j].id && page[i].createdAt <= page[j].createdAt {
      assert IdKey(page[i]) < IdKey(page[j]);
      IdOrderIsTimeOrder(chats, next, ms, clock, page[i], page[j]);
    }
  }

  /** With the default page size, a chat of 120 messages has three pages; the first holds the 50
      newest messages and the third the 20 oldest. */
  lemma HistoryOfHundredTwenty(chats: map<ChatId, Chat>, ms: seq<Message>, caller: UserId, c: ChatId)
    requires IsMember(chats, c, caller) && |ChatMessages(ms, c)| == 120
    ensures var all := ChatMessages(ms, c);
      && GetMessages(chats, ms, caller, c, None, None).Ok?
      && GetMessages(chats, ms, caller, c, None, None).value.messages == all[70..120]
      && GetMessages(chats, ms, caller, c, None, None).value.pagination == Pagination(1, Some(3), 120)
      && GetMessages(chats, ms, caller, c, Some(3), None).value.messages == all[..20]
  {
    var all := ChatMessages(ms, c);
    HistoryReply(chats, ms, caller, c, None, None);
    HistoryReply(chats, ms, caller, c, Some(3), None);
    assert TotalPages(120, 50) == Some(3);
    NewestRun(all, 0, 50);
    NewestRun(all, 100, 20);
    assert Window(Reverse(all), 100, 50) == Window(Reverse(all), 100, 20);
  }

  /** What the search reply carries: the page of hits and the query echoed back. */
  datatype SearchPage = SearchPage(messages: seq<Message>, query: string)

  /** The search filter `{chat: c, text: {$regex: query, $options: 'i'}, isDeleted: false}`: the
      chat filter narrowed to the live messages whose text matches. */
  function SearchHit(c: ChatId, query: string, rx: Regex): (hit: Message -> bool)
    ensures forall m :: hit(m) <==> InChat(c)(m) && LiveMatch(query, rx)(m)
  {
    (m: Message) => m.chat == c && rx.test(query, m.text) && !m.isDeleted
  }

  function LiveMatch(query: string, rx: Regex): Message -> bool {
    (m: Message) => rx.test(query, m.text) && !m.isDeleted
  }

  /** The search hits are the chat's history, in its order, with the deleted and the
      non-matching messages left out. */
  lemma SearchHitsOfChat(ms: seq<Message>, c: ChatId, query: string, rx: Regex)
    ensures Filter(ms, SearchHit(c, query, rx)) == Filter(ChatMessages(ms, c), LiveMatch(query, rx))
  {
    FilterBoth(ms, InChat(c), LiveMatch(query, rx), SearchHit(c, query, rx));
  }

  /** `searchMessages`: the membership check, then the non-deleted messages of the chat whose
      text matches `query` case-insensitively, newest first, one page of them. A request without
      a `query` parameter sends `$regex: undefined`, which the database refuses as it refuses a
      query that is not a regular expression or a negative skip: 500 "Search failed". */
  function SearchMessages(chats: map<ChatId, Chat>, ms: seq<Message>, caller: UserId, c: ChatId,
                          query: Option<string>, page: Option<int>, limit: Option<int>, rx: Regex)
    : (r: Reply<SearchPage>)
    ensures !IsMember(chats, c, caller) ==> r == Fail(403, NotAuthorized)
    ensures IsMember(chats, c, caller) ==>
      var p, l := page.GetOr(1), limit.GetOr(SearchPageSize);
      && (!r.Ok? <==> Skip(p, l) < 0 || query.None? || !rx.valid(query.value))
      && (!r.Ok? ==> r == Fail(500, SearchFailed))
      && (r.Ok? ==>
            && r.status == 200 && query == Some(r.value.query)
            && (l != 0 ==> |r.value.messages| <= Abs(l))
            && forall m :: m in r.value.messages ==>
                 m in ms && m.chat == c && !m.isDeleted && rx.test(query.value, m.text))
  {
    if !IsMember(chats, c, caller) then Fail(403, NotAuthorized)
    else
      var p, l := page.GetOr(1), limit.GetOr(SearchPageSize);
      var skip := Skip(p, l);
      if skip < 0 || query.None? || !rx.valid(query.value) then Fail(500, SearchFailed)
      else
        var q := query.value;
        var hits := Reverse(Filter(ms, SearchHit(c, q, rx)));
        var w := Window(hits, skip, l);
        WindowMembers(hits, skip, l);
        ReverseMembers(Filter(ms, SearchHit(c, q, rx)));
        Ok(200, SearchPage(w, q))
  }

  /** The reply of `searchMessages` to a member with a valid query and a non-negative skip. */
  lemma SearchReply(chats: map<ChatId, Chat>, ms: seq<Message>, caller: UserId, c: ChatId,
                    query: string, page: Option<int>, limit: Option<int>, rx: Regex)
    requires IsMember(chats, c, caller) && rx.valid(query)
    requires Skip(page.GetOr(1), limit.GetOr(SearchPageSize)) >= 0
    ensures var skip := Skip(page.GetOr(1), limit.GetOr(SearchPageSize));
      SearchMessages(chats, ms, caller, c, Some(query), page, limit, rx)
        == Ok(200, SearchPage(Window(Reverse(Filter(ms, SearchHit(c, query, rx))), skip, limit.GetOr(SearchPageSize)), query))
  {
  }

  /** The first search page is the newest hits, newest first; a deleted message is never a hit. */
  lemma SearchNewestFirst(chats: map<ChatId, Chat>, ms: seq<Message>, caller: UserId, c: ChatId,
                          query: string, rx: Regex)
    requires IsMember(chats, c, caller) && rx.valid(query)
    ensures var hits := Filter(ms, SearchHit(c, query, rx));
      var r := SearchMessages(chats, ms, caller, c, Some(query), None, None, rx);
      && r.Ok?
      && |r.value.messages| == Min(|hits|, SearchPageSize)
      && forall i :: 0 <= i < |r.value.messages| ==> r.value.messages[i] == hits[|hits| - 1 - i]
  {
    SearchReply(chats, ms, caller, c, query, None, None, rx);
    NewestFirst(Filter(ms, SearchHit(c, query, rx)), SearchPageSize);
  }

  /** Every search page, read oldest first, is one contiguous run of the hits in creation order,
      ending `(page - 1) * limit` hits before the newest one; it is cut short of `limit` hits only
      by the oldest hit. */
  lemma SearchIsNewestRun(chats: map<ChatId, Chat>, ms: seq<Message>, caller: UserId, c: ChatId,
                          query: string, page: Option<int>, limit: Option<int>, rx: Regex)
    requires SearchMessages(chats, ms, caller, c, Some(query), page, limit, rx).Ok?
    ensures var hits := Filter(ms, SearchHit(c, query, rx));
      var l := limit.GetOr(SearchPageSize);
      var skip := Skip(page.GetOr(1), l);
      var found := SearchMessages(chats, ms, caller, c, Some(query), page, limit, rx).value.messages;
      var hi := |hits| - Min(skip, |hits|);
      && |found| <= hi && Reverse(found) == hits[hi - |found|..hi]
      && (skip + |found| >= |hits| || (l != 0 && |found| == Abs(l)))
  {
    var skip := Skip(page.GetOr(1), limit.GetOr(SearchPageSize));
    SearchReply(chats, ms, caller, c, query, page, limit, rx);
    NewestPageIsSlice(Filter(ms, SearchHit(c, query, rx)), skip, limit.GetOr(SearchPageSize));
  }

  /** Every search page lists its hits newest first: ids strictly decrease along the page and
      `createdAt` never increases. */
  lemma SearchPageNewestFirst(chats: map<ChatId, Chat>, next: nat, ms: seq<Message>, clock: int, caller: UserId,
                              c: ChatId, query: string, page: Option<int>, limit: Option<int>, rx: Regex)
    requires Consistent(chats, next, ms, clock)
    requires SearchMessages(chats, ms, caller, c, Some(query), page, limit, rx).Ok?
    ensures var found := SearchMessages(chats, ms, caller, c, Some(query), page, limit, rx).value.messages;
      forall i, j :: 0 <= i < j < |found| ==> found[i].id > found[j].id && found[i].createdAt >= found[j].createdAt
  {
    var hits := Filter(ms, SearchHit(c, query, rx));
    SearchReply(chats, ms, caller, c, query, page, limit, rx);
    LogAscending(chats, next, ms, clock);
    FilterKeepsIncreasing(ms, SearchHit(c, query, rx), IdKey);
    NewestPageDescending(chats, next, ms, clock, hits, Skip(page.GetOr(1), limit.GetOr(SearchPageSize)),
                         limit.GetOr(SearchPageSize));
  }

  /** A page of a newest-first cursor over logged messages in id order is in descending id and
      time order. */
  lemma NewestPageDescending(chats: map<ChatId, Chat>, next: nat, ms: seq<Message>, clock: int,
                             s: seq<Message>, skip: nat, limit: int)
    requires Consistent(chats, next, ms, clock)
    requires Increasing(s, IdKey) && forall m :: m in s ==> m in ms
    ensures var w := Window(Reverse(s), skip, limit);
      forall i, j :: 0 <= i < j < |w| ==> w[i].id > w[j].id && w[i].createdAt >= w[j].createdAt
  {
    var w := Window(Reverse(s), skip, limit);
    var hi := |s| - Min(skip, |s|);
    NewestPageIsSlice(s, skip, limit);
    RunIncreasing(s, hi - |w|, hi, IdKey);
    ReverseMembers(s);
    WindowMembers(Reverse(s), skip, limit);
    DescendingInTime(chats, next, ms, clock, w);
  }

  /** Logged messages that read backwards in strictly increasing id order are in non-increasing
      time order. */
  lemma DescendingInTime(chats: map<ChatId, Chat>, next: nat, ms: seq<Message>, clock: int, page: seq<Message>)
    requires Consistent(chats, next, ms, clock)
    requires Increasing(Reverse(page), IdKey) && forall m :: m in page ==> m in ms
    ensures forall i, j :: 0 <= i < j < |page| ==> page[i].id > page[j].id && page[i].createdAt >= page[j].createdAt
  {
    ReverseIncreasing(page, IdKey);
    forall i, j | 0 <= i < j < |page| ensures page[i].id > page[j].id && page[i].createdAt >= page[j].createdAt {
      assert IdKey(page[i]) > IdKey(page[j]);
      IdOrderIsTimeOrder(chats, next, ms, clock, page[j], page[i]);
    }
  }

  // ---------------------------------------------------------------- the store

  /** `chat.lastMessage` is the newest message of chat `c`, and absent while it has none. */
  ghost predicate LastIsNewest(chat: Chat, c: ChatId, ms: seq<Message>) {
    match chat.lastMessage
    case None => forall j :: 0 <= j < |ms| ==> ms[j].chat != c
    case Some(k) => k < |ms| && ms[k].chat == c && forall j :: k < j < |ms| ==> ms[j].chat != c
  }

  /** Message `i` of the log: it knows its own id, belongs to an existing chat and was sent by a
      member, its sender has read it, its text is never empty (the schema requires it), a deleted
      message shows the placeholder, and image and file messages, and only they, carry a file. */
  ghost predicate WellFormed(m: Message, i: nat, chats: map<ChatId, Chat>, clock: int) {
    && m.id == i
    && m.chat in chats && m.sender in chats[m.chat].members
    && m.sender in m.readBy
    && m.text != ""
    && m.createdAt <= clock
    && (m.isDeleted ==> m.text == DeletedText)
    && (m.attachment.Some? <==> m.messageType == Image || m.messageType == File)
  }

  ghost predicate Consistent(chats: map<ChatId, Chat>, nextChatId: nat, ms: seq<Message>, clock: int) {
    && (forall c :: c in chats ==> c < nextChatId && chats[c].updatedAt <= clock)
    && (forall c :: c in chats ==> LastIsNewest(chats[c], c, ms))
    && (forall i :: 0 <= i < |ms| ==> WellFormed(ms[i], i, chats, clock))
    && (forall i, j :: 0 <= i < j < |ms| ==> ms[i].createdAt <= ms[j].createdAt)
  }

  /** The chat after a message `m` was posted in it at time `now`. */
  function Touched(chats: map<ChatId, Chat>, c: ChatId, m: MessageId, now: int): (r: map<ChatId, Chat>)
    requires c in chats
    ensures r.Keys == chats.Keys && r[c].members == chats[c].members
    ensures r[c].lastMessage == Some(m) && r[c].updatedAt == now
    ensures forall k :: k in chats && k != c ==> r[k] == chats[k]
  {
    chats[c := chats[c].(lastMessage := Some(m), updatedAt := now)]
  }

  /** `mimeType.startsWith('image/')`. */
  predicate IsImage(mimeType: string): (b: bool)
    ensures b <==> |mimeType| >= 6 && mimeType == "image/" + mimeType[6..]
  {
    |mimeType| >= 6 && mimeType[..6] == "image/"
  }

  /** The text of a file message: the caller's text when it is truthy, else a stock caption
      that says whether a photo or a file was shared. */
  function FileCaption(text: Option<string>, mimeType: string): (t: string)
    ensures t != ""
    ensures Truthy(text) ==> t == text.value
    ensures !Truthy(text) && IsImage(mimeType) ==> t == "Shared a photo"
    ensures !Truthy(text) && !IsImage(mimeType) ==> t == "Shared a file"
  {
    if Truthy(text) then text.value else "Shared a " + (if IsImage(mimeType) then "photo" else "file")
  }

  /** Soft deletion keeps the store invariant. */
  lemma SoftDeletedConsistent(chats: map<ChatId, Chat>, next: nat, ms: seq<Message>, clock: int, i: nat)
    requires Consistent(chats, next, ms, clock) && i < |ms|
    ensures Consistent(chats, next, SoftDeleted(ms, i), clock)
  {
    var r := SoftDeleted(ms, i);
    forall k | 0 <= k < |r| ensures WellFormed(r[k], k, chats, clock) && r[k].chat == ms[k].chat {
      assert WellFormed(ms[k], k, chats, clock);
    }
    forall c | c in chats ensures LastIsNewest(chats[c], c, r) {
      assert LastIsNewest(chats[c], c, ms);
    }
  }

  lemma MarkedReadConsistent(chats: map<ChatId, Chat>, next: nat, ms: seq<Message>, clock: int, c: ChatId, v: UserId)
    requires Consistent(chats, next, ms, clock)
    ensures Consistent(chats, next, MarkedRead(ms, c, v), clock)
  {
    var r := MarkedRead(ms, c, v);
    forall k | k in chats ensures LastIsNewest(chats[k], k, r) {
      assert LastIsNewest(chats[k], k, ms);
    }
    forall i | 0 <= i < |r| ensures WellFormed(r[i], i, chats, clock) {
      assert WellFormed(ms[i], i, chats, clock);
    }
  }

  /** Appending a well-formed message stamped `now` and touching its chat keeps the store
      consistent: the message is the newest of its chat and no older message moves. */
  lemma PostKeepsConsistent(chats: map<ChatId, Chat>, next: nat, ms: seq<Message>, clock: int, m: Message, now: int)
    requires Consistent(chats, next, ms, clock) && clock <= now
    requires m.id == |ms| && m.createdAt == now && m.chat in chats
    requires WellFormed(m, m.id, chats, now)
    ensures Consistent(Touched(chats, m.chat, m.id, now), next, ms + [m], now)
  {
    var r := ms + [m];
    var cs := Touched(chats, m.chat, m.id, now);
    forall i | 0 <= i < |r| ensures WellFormed(r[i], i, cs, now) {
      if i < |ms| {
        assert r[i] == ms[i];
        assert WellFormed(ms[i], i, chats, clock);
      }
    }
    forall c | c in cs ensures LastIsNewest(cs[c], c, r) {
      if c != m.chat {
        assert LastIsNewest(chats[c], c, ms);
      }
    }
    forall i, j | 0 <= i < j < |r| ensures r[i].createdAt <= r[j].createdAt {
      if j < |ms| {
        assert r[i] == ms[i] && r[j] == ms[j];
      } else {
        assert r[i] == ms[i];
        assert WellFormed(ms[i], i, chats, clock);
      }
    }
  }

  /** The service's persistent state: the chats, the message log, the block records and the
      time of the latest write. */
  /** The `updateMany` pass of `markMessagesAsRead`: each message of chat `c` that `v` has not
      read gains `v` as a reader. */
  method MarkAll(ms: seq<Message>, c: ChatId, v: UserId) returns (r: seq<Message>)
    ensures r == MarkedRead(ms, c, v)
  {
    r := ms;
    var i := 0;
    while i < |r|
      invariant 0 <= i <= |r| == |ms|
      invariant forall k :: 0 <= k < i ==> r[k] == MarkOne(ms[k], c, v)
      invariant forall k :: i <= k < |r| ==> r[k] == ms[k]
    {
      var m := r[i];
      if m.chat == c && v !in m.readBy {
        r := r[i := m.(readBy := m.readBy + [v])];
      }
      i := i + 1;
    }
  }

  class Store {
    var chats: map<ChatId, Chat>
    var nextChatId: nat
    var messages: seq<Message>
    var blocks: set<Block>
    var clock: int

    ghost predicate Valid()
      reads this
    {
      Consistent(chats, nextChatId, messages, clock)
    }

    constructor (now: int)
      ensures Valid()
      ensures chats == map[] && nextChatId == 0 && messages == [] && blocks == {} && clock == now
    {
      chats, nextChatId, messages, blocks, clock := map[], 0, [], {}, now;
    }

    /** `accessChat`: the existing chat of the two users, or a new one with members
        `[caller, other]`. */
    method AccessChat(caller: UserId, other: UserId, now: int) returns (id: ChatId)
      requires Valid() && clock <= now
      modifies this
      ensures Valid()
      ensures HasBoth(chats, id, caller, other)
      ensures FindChat(old(chats), old(nextChatId), caller, other).Some? ==>
        id == FindChat(old(chats), old(nextChatId), caller, other).value && unchanged(this)
      ensures FindChat(old(chats), old(nextChatId), caller, other).None? ==>
        && id == old(nextChatId)
        && chats == old(chats)[id := Chat([caller, other], None, now)]
        && nextChatId == id + 1
        && messages == old(messages) && blocks == old(blocks) && clock == now
    {
      var found := FindChat(chats, nextChatId, caller, other);
      if found.Some? {
        return found.value;
      }
      id := nextChatId;
      chats := chats[id := Chat([caller, other], None, now)];
      nextChatId := nextChatId + 1;
      clock := now;
      forall i | 0 <= i < |messages| ensures WellFormed(messages[i], i, chats, clock) {
        assert WellFormed(messages[i], i, old(chats), old(clock));
      }
      forall c | c in chats ensures LastIsNewest(chats[c], c, messages) {
        if c != id {
          assert LastIsNewest(old(chats)[c], c, messages);
        } else {
          forall j | 0 <= j < |messages| ensures messages[j].chat != c {
            assert WellFormed(messages[j], j, old(chats), old(clock));
          }
        }
      }
    }

    /** Appends `m` to the log and makes it the chat's latest message. */
    method Post(m: Message, now: int)
      requires Valid() && clock <= now
      requires m.id == |messages| && m.createdAt == now && m.chat in chats
      requires WellFormed(m, m.id, chats, now)
      modifies this
      ensures Valid()
      ensures messages == old(messages) + [m]
      ensures chats == Touched(old(chats), m.chat, m.id, now)
      ensures nextChatId == old(nextChatId) && blocks == old(blocks) && clock == now
    {
      PostKeepsConsistent(chats, nextChatId, messages, clock, m, now);
      messages, chats, clock := messages + [m], Touched(chats, m.chat, m.id, now), now;
    }

    /** `sendMessage`: members only; the text is required by the schema, so a missing or empty
        text fails with 500 after the membership check. */
    method SendMessage(caller: UserId, chatId: ChatId, text: Option<string>, now: int) returns (r: Reply<Message>)
      requires Valid() && clock <= now
      modifies this
      ensures Valid()
      ensures !IsMember(old(chats), chatId, caller) ==> r == Fail(403, NotAuthorized) && unchanged(this)
      ensures IsMember(old(chats), chatId, caller) && !Truthy(text) ==> r == Fail(500, ServerError) && unchanged(this)
      ensures IsMember(old(chats), chatId, caller) && Truthy(text) ==>
        && r == Ok(201, Message(|old(messages)|, chatId, caller, text.value, [caller], false, Text, None, now))
        && messages == old(messages) + [r.value]
        && chats == Touched(old(chats), chatId, r.value.id, now)
        && nextChatId == old(nextChatId) && blocks == old(blocks) && clock == now
    {
      if !IsMember(chats, chatId, caller) {
        return Fail(403, NotAuthorized);
      }
      if !Truthy(text) {
        return Fail(500, ServerError);
      }
      var m := Message(|messages|, chatId, caller, text.value, [caller], false, Text, None, now);
      Post(m, now);
      r := Ok(201, m);
    }

    /** `sendFileMessage`: a missing file is refused before the membership check; the message is
        an image message exactly when the MIME type starts with `image/`. */
    method SendFileMessage(caller: UserId, chatId: ChatId, file: Option<UploadedFile>, text: Option<string>, now: int)
      returns (r: Reply<Message>)
      requires Valid() && clock <= now
      modifies this
      ensures Valid()
      ensures file.None? ==> r == Fail(400, NoFileUploaded) && unchanged(this)
      ensures file.Some? && !IsMember(old(chats), chatId, caller) ==> r == Fail(403, NotAuthorized) && unchanged(this)
      ensures file.Some? && IsMember(old(chats), chatId, caller) ==>
        var f, image := file.value, IsImage(file.value.mimeType);
        && r == Ok(201, Message(|old(messages)|, chatId, caller, FileCaption(text, f.mimeType), [caller], false,
                                if image then Image else File,
                                Some(Attachment(f.filename, f.mimeType, f.originalName)), now))
        && messages == old(messages) + [r.value]
        && chats == Touched(old(chats), chatId, r.value.id, now)
        && nextChatId == old(nextChatId) && blocks == old(blocks) && clock == now
    {
      if file.None? {
        return Fail(400, NoFileUploaded);
      }
      if !IsMember(chats, chatId, caller) {
        return Fail(403, NotAuthorized);
      }
      var f := file.value;
      var image := IsImage(f.mimeType);
      var m := Message(|messages|, chatId, caller, FileCaption(text, f.mimeType), [caller], false,
                       if image then Image else File, Some(Attachment(f.filename, f.mimeType, f.originalName)), now);
      Post(m, now);
      r := Ok(201, m);
    }

    /** `POST /:chatId/message`: the validator runs before the handler. */
    method PostTextMessage(caller: UserId, chatId: ChatId, text: Option<string>, now: int) returns (r: Reply<Message>)
      requires Valid() && clock <= now
      modifies this
      ensures Valid()
      ensures ValidateMessage(text).Reject? ==>
        r == Fail(400, ValidateMessage(text).message) && unchanged(this)
      ensures ValidateMessage(text) == Next && !IsMember(old(chats), chatId, caller) ==>
        r == Fail(403, NotAuthorized) && unchanged(this)
      ensures ValidateMessage(text) == Next && IsMember(old(chats), chatId, caller) ==>
        && r == Ok(201, Message(|old(messages)|, chatId, caller, text.value, [caller], false, Text, None, now))
        && 0 < Utf16Length(r.value.text) <= MaxTextLength
        && messages == old(messages) + [r.value]
        && chats == Touched(old(chats), chatId, r.value.id, now)
        && nextChatId == old(nextChatId) && blocks == old(blocks) && clock == now
    {
      var v := ValidateMessage(text);
      if v.Reject? {
        return Fail(400, v.message);
      }
      r := SendMessage(caller, chatId, text, now);
    }

    /** `POST /:chatId/file`: the upload middleware, then the handler. A refused file never
        reaches the handler, which then answers as if nothing was sent; an accepted file over the
        size cap is multer's error; no error handler is installed, so Express's default handler
        answers it with 500 and an error page. */
    method PostFileMessage(caller: UserId, chatId: ChatId, part: Option<FilePart>, text: Option<string>,
                           stamp: string, nonce: string, now: int) returns (r: Reply<Message>)
      requires Valid() && clock <= now
      modifies this
      ensures Valid()
      ensures SingleUpload(part, stamp, nonce).TooLarge? ==> r == ErrorPage(500) && unchanged(this)
      ensures SingleUpload(part, stamp, nonce).NoFile? ==> r == Fail(400, NoFileUploaded) && unchanged(this)
      ensures SingleUpload(part, stamp, nonce).Stored? && !IsMember(old(chats), chatId, caller) ==>
        r == Fail(403, NotAuthorized) && unchanged(this)
      ensures SingleUpload(part, stamp, nonce).Stored? && IsMember(old(chats), chatId, caller) ==>
        var p := part.value;
        && r == Ok(201, Message(|old(messages)|, chatId, caller, FileCaption(text, p.mimeType), [caller], false,
                                if IsImage(p.mimeType) then Image else File,
                                Some(Attachment(StoredName(stamp, nonce, p.originalName), p.mimeType, p.originalName)),
                                now))
        && messages == old(messages) + [r.value]
        && chats == Touched(old(chats), chatId, r.value.id, now)
        && nextChatId == old(nextChatId) && blocks == old(blocks) && clock == now
    {
      var u := SingleUpload(part, stamp, nonce);
      match u
      case TooLarge =>
        r := ErrorPage(500);
      case NoFile =>
        r := SendFileMessage(caller, chatId, None, text, now);
      case Stored(f) =>
        r := SendFileMessage(caller, chatId, Some(f), text, now);
    }

    /** `markMessagesAsRead`: members only; every message of the chat the caller has not read
        gains the caller as a reader. */
    method MarkMessagesAsRead(caller: UserId, chatId: ChatId) returns (r: Reply<string>)
      requires Valid()
      modifies this
      ensures Valid()
      ensures !IsMember(old(chats), chatId, caller) ==> r == Fail(403, NotAuthorized) && unchanged(this)
      ensures IsMember(old(chats), chatId, caller) ==>
        && r == Ok(200, MarkedAsRead)
        && messages == MarkedRead(old(messages), chatId, caller)
        && chats == old(chats) && nextChatId == old(nextChatId) && blocks == old(blocks) && clock == old(clock)
    {
      if !IsMember(chats, chatId, caller) {
        return Fail(403, NotAuthorized);
      }
      var ms := MarkAll(messages, chatId, caller);
      MarkedReadConsistent(chats, nextChatId, messages, clock, chatId, caller);
      messages := ms;
      r := Ok(200, MarkedAsRead);
    }

    /** `deleteMessage`: only the sender may delete; the message stays in the log with the
        placeholder text, keeping its type, attachment and readers. */
    method DeleteMessage(caller: UserId, id: MessageId) returns (r: Reply<string>)
      requires Valid()
      modifies this
      ensures Valid()
      ensures id >= |old(messages)| ==> r == Fail(404, MessageNotFound) && unchanged(this)
      ensures id < |old(messages)| && old(messages)[id].sender != caller ==>
        r == Fail(403, NotAuthorized) && unchanged(this)
      ensures id < |old(messages)| && old(messages)[id].sender == caller ==>
        && r == Ok(200, MessageDeleted)
        && messages == SoftDeleted(old(messages), id)
        && chats == old(chats) && nextChatId == old(nextChatId) && blocks == old(blocks) && clock == old(clock)
    {
      if id >= |messages| {
        return Fail(404, MessageNotFound);
      }
      if messages[id].sender != caller {
        return Fail(403, NotAuthorized);
      }
      SoftDeletedConsistent(chats, nextChatId, messages, clock, id);
      messages := SoftDeleted(messages, id);
      r := Ok(200, MessageDeleted);
    }

    /** `blockUser`: a second block of the same user is refused. */
    method BlockUser(caller: UserId, other: UserId) returns (r: Reply<string>)
      requires Valid()
      modifies this
      ensures Valid()
      ensures Block(caller, other) in old(blocks) ==> r == Fail(400, AlreadyBlocked) && unchanged(this)
      ensures Block(caller, other) !in old(blocks) ==>
        && r == Ok(200, UserBlocked)
        && blocks == old(blocks) + {Block(caller, other)}
        && chats == old(chats) && nextChatId == old(nextChatId) && messages == old(messages) && clock == old(clock)
    {
      if Block(caller, other) in blocks {
        return Fail(400, AlreadyBlocked);
      }
      blocks := blocks + {Block(caller, other)};
      r := Ok(200, UserBlocked);
    }

    /** `unblockUser`: removes the record if there is one, and succeeds either way. */
    method UnblockUser(caller: UserId, other: UserId) returns (r: Reply<string>)
      requires Valid()
      modifies this
      ensures Valid()
      ensures r == Ok(200, UserUnblocked)
      ensures blocks == old(blocks) - {Block(caller, other)}
      ensures chats == old(chats) && nextChatId == old(nextChatId) && messages == old(messages) && clock == old(clock)
    {
      blocks := blocks - {Block(caller, other)};
      r := Ok(200, UserUnblocked);
    }
  }
}
