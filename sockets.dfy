/** The real-time layer (the Socket.IO handlers of the server): which sockets are connected,
    the rooms each has joined, the `connectedUsers` and `userSockets` maps, and the events each
    handler emits and to whom. A socket joins the room named after its own id when it connects;
    every other room is joined and left by the handlers. Time is passed in. */
module Sockets {

  type SocketId = string
  type UserId = string
  type Room = string

  const Delivered := "delivered"

  /** The events the server emits, with their payloads. */
  datatype Event =
    | UserOnline(userId: UserId)
    | UserOffline(userId: UserId)
    | ReceiveMessage(chatId: string, senderId: string, text: string, timestamp: int)
    | MessageSent(chatId: string, text: string, timestamp: int, status: string)
    | MessagesRead(chatId: string, userId: string)
    | UserTyping(userId: string, isTyping: bool)

  /** One `emit`: the sockets that receive the event. */
  datatype Emission = Emission(targets: set<SocketId>, event: Event)

  class Server {
    var live: set<SocketId>
    var rooms: map<SocketId, set<Room>>
    var connectedUsers: map<UserId, SocketId>
    var userSockets: map<SocketId, UserId>

    /** Exactly the connected sockets have a room set. */
    ghost predicate Valid()
      reads this
    {
      rooms.Keys == live
    }

    /** The connected sockets in `room`: the audience of `io.to(room)`. */
    function InRoom(room: Room): (r: set<SocketId>)
      reads this
      requires Valid()
      ensures r <= live
      ensures forall s :: s in r <==> s in live && room in rooms[s]
    {
      set s | s in rooms && room in rooms[s]
    }

    constructor ()
      ensures Valid()
      ensures live == {} && rooms == map[] && connectedUsers == map[] && userSockets == map[]
    {
      live, rooms, connectedUsers, userSockets := {}, map[], map[], map[];
    }

    /** A new connection, placed in its own room. */
    method Connect(s: SocketId)
      requires Valid() && s !in live
      modifies this
      ensures Valid()
      ensures live == old(live) + {s} && rooms == old(rooms)[s := {s}]
      ensures connectedUsers == old(connectedUsers) && userSockets == old(userSockets)
    {
      live := live + {s};
      rooms := rooms[s := {s}];
    }

    /** `join`: the socket enters the user's room, both maps record the pair (a later join of the
        same user from another socket replaces the first in `connectedUsers`), and every other
        socket hears that the user is online. */
    method Join(s: SocketId, userId: UserId) returns (out: seq<Emission>)
      requires Valid() && s in live
      modifies this
      ensures Valid()
      ensures live == old(live) && rooms == old(rooms)[s := old(rooms)[s] + {userId}]
      ensures connectedUsers == old(connectedUsers)[userId := s]
      ensures userSockets == old(userSockets)[s := userId]
      ensures out == [Emission(live - {s}, UserOnline(userId))]
      ensures s in InRoom(userId)
    {
      rooms := rooms[s := rooms[s] + {userId}];
      connectedUsers := connectedUsers[userId := s];
      userSockets := userSockets[s := userId];
      out := [Emission(live - {s}, UserOnline(userId))];
    }

    /** `sendMessage`: every socket in the receiver's room gets the message, tagged with the
        sender id the client claims; the sending socket alone gets the delivery receipt. Nothing
        is stored. */
    method SendMessage(s: SocketId, chatId: string, senderId: string, receiverId: UserId, text: string, now: int)
      returns (out: seq<Emission>)
      requires Valid() && s in live
      ensures |out| == 2
      ensures out[0].event == ReceiveMessage(chatId, senderId, text, now)
      ensures forall t :: t in out[0].targets <==> t in live && receiverId in rooms[t]
      ensures out[1] == Emission({s}, MessageSent(chatId, text, now, Delivered))
    {
      out := [Emission(InRoom(receiverId), ReceiveMessage(chatId, senderId, text, now)),
              Emission({s}, MessageSent(chatId, text, now, Delivered))];
    }

    /** `markAsRead`: the other sockets in the chat's room hear that `userId` read the chat. */
    method MarkAsRead(s: SocketId, chatId: Room, userId: string) returns (out: seq<Emission>)
      requires Valid() && s in live
      ensures |out| == 1 && out[0].event == MessagesRead(chatId, userId)
      ensures forall t :: t in out[0].targets <==> t in live && t != s && chatId in rooms[t]
    {
      out := [Emission(InRoom(chatId) - {s}, MessagesRead(chatId, userId))];
    }

    /** `typing`: the other sockets in the chat's room hear the typing state. */
    method Typing(s: SocketId, chatId: Room, userId: string, isTyping: bool) returns (out: seq<Emission>)
      requires Valid() && s in live
      ensures |out| == 1 && out[0].event == UserTyping(userId, isTyping)
      ensures forall t :: t in out[0].targets <==> t in live && t != s && chatId in rooms[t]
    {
      out := [Emission(InRoom(chatId) - {s}, UserTyping(userId, isTyping))];
    }

    /** `joinChat`: the socket enters the room; no event is emitted. */
    method JoinChat(s: SocketId, chatId: Room)
      requires Valid() && s in live
      modifies this
      ensures Valid()
      ensures live == old(live) && rooms == old(rooms)[s := old(rooms)[s] + {chatId}]
      ensures connectedUsers == old(connectedUsers) && userSockets == old(userSockets)
      ensures s in InRoom(chatId)
    {
      rooms := rooms[s := rooms[s] + {chatId}];
    }

    /** `leaveChat`: the socket leaves the room, whatever room it is (its own and its user's
        room included). */
    method LeaveChat(s: SocketId, chatId: Room)
      requires Valid() && s in live
      modifies this
      ensures Valid()
      ensures live == old(live)
      ensures rooms == old(rooms)[s := old(rooms)[s] - {chatId}]
      ensures connectedUsers == old(connectedUsers) && userSockets == old(userSockets)
      ensures s !in InRoom(chatId)
    {
      rooms := rooms[s := rooms[s] - {chatId}];
    }

    /** `disconnect`: the socket leaves every room. When it had joined as a user (a non-empty id),
        that user is dropped from both maps, even if another socket has since joined as the same
        user, and every other socket hears that the user is offline. */
    method Disconnect(s: SocketId) returns (out: seq<Emission>)
      requires Valid() && s in live
      modifies this
      ensures Valid()
      ensures live == old(live) - {s} && rooms == old(rooms) - {s}
      ensures forall room :: s !in InRoom(room)
      ensures s in old(userSockets) && old(userSockets)[s] != "" ==>
        && connectedUsers == old(connectedUsers) - {old(userSockets)[s]}
        && userSockets == old(userSockets) - {s}
        && out == [Emission(old(live) - {s}, UserOffline(old(userSockets)[s]))]
      ensures !(s in old(userSockets) && old(userSockets)[s] != "") ==>
        connectedUsers == old(connectedUsers) && userSockets == old(userSockets) && out == []
    {
      out := [];
      if s in userSockets && userSockets[s] != "" {
        var userId := userSockets[s];
        connectedUsers := connectedUsers - {userId};
        userSockets := userSockets - {s};
        out := [Emission(live - {s}, UserOffline(userId))];
      }
      live := live - {s};
      rooms := rooms - {s};
    }
  }

  /** The same user joins from two sockets and the first one disconnects: one offline event goes
      out and the user is no longer in `connectedUsers`, although the second socket is still
      connected and in the user's room. */
  method TwoSocketsOneUser(s1: SocketId, s2: SocketId, u: UserId)
    returns (stillConnected: bool, stillListed: bool, offline: seq<Emission>)
    requires s1 != s2 && u != ""
    ensures stillConnected && !stillListed
    ensures offline == [Emission({s2}, UserOffline(u))]
  {
    var server := new Server();
    server.Connect(s1);
    server.Connect(s2);
    var _ := server.Join(s1, u);
    var _ := server.Join(s2, u);
    assert server.live - {s1} == {s2};
    offline := server.Disconnect(s1);
    stillConnected := s2 in server.InRoom(u);
    stillListed := u in server.connectedUsers;
  }

  /** A socket that joined with the empty user id is never removed from `userSockets`: the
      disconnect handler skips a falsy id, and no offline event is sent. */
  method EmptyUserIdLingers(s: SocketId) returns (lingers: bool, events: nat)
    ensures lingers && events == 0
  {
    var server := new Server();
    server.Connect(s);
    var _ := server.Join(s, "");
    var out := server.Disconnect(s);
    lingers := s in server.userSockets && s !in server.live;
    events := |out|;
  }
}
