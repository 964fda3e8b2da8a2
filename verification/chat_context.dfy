/** The chat-session list kept by `contexts/ChatContext.tsx`, with the two
    list updates it offers. The clock is read by the caller and passed in. */
module ChatContext {
  import opened Wrappers
  import opened Text

  /** One consultation thread as the list holds it. */
  datatype ChatSession = ChatSession(id: string, title: string, lastUpdated: int)

  const NewChatTitle: string := "새로운 상담"

  /** What `createChat` leaves behind: the id it returns and the new list. */
  datatype Created = Created(id: string, sessions: seq<ChatSession>)

  function Ids(sessions: seq<ChatSession>): (ids: seq<string>)
    ensures |ids| == |sessions|
    ensures forall i :: 0 <= i < |sessions| ==> ids[i] == sessions[i].id
  {
    seq(|sessions|, i requires 0 <= i < |sessions| => sessions[i].id)
  }

  /** `createChat`, which reads `Date.now()` twice: `idClock` is the
      reading rendered as the id, `stampClock` the one stored as the time of
      the last update. The new session goes to the front. */
  function CreateChat(sessions: seq<ChatSession>, idClock: nat, stampClock: int): (r: Created)
    ensures |r.sessions| == |sessions| + 1
    ensures r.sessions[0] == ChatSession(r.id, NewChatTitle, stampClock)
    ensures r.sessions[1..] == sessions
    ensures ParseDecimal(r.id) == Some(idClock as int)
  {
    var newId := IntToDecimal(idClock);
    DecimalRoundTrip(idClock);
    Created(newId, [ChatSession(newId, NewChatTitle, stampClock)] + sessions)
  }

  /** Every id in the list is the rendering of a clock reading before `t`. */
  ghost predicate IdsFromEarlierClocks(sessions: seq<ChatSession>, t: nat) {
    forall i :: 0 <= i < |sessions| ==> exists c: nat :: c < t && sessions[i].id == IntToDecimal(c)
  }

  /** When every existing id came from an earlier clock reading, the new id
      is not already in the list. */
  lemma CreateChatFreshId(sessions: seq<ChatSession>, idClock: nat, stampClock: int)
    requires IdsFromEarlierClocks(sessions, idClock)
    ensures var r := CreateChat(sessions, idClock, stampClock);
      r.id !in Ids(sessions)
  {
    var r := CreateChat(sessions, idClock, stampClock);
    if r.id in Ids(sessions) {
      var i :| 0 <= i < |sessions| && Ids(sessions)[i] == r.id;
      var c: nat :| c < idClock && sessions[i].id == IntToDecimal(c);
      DecimalInjective(c, idClock);
    }
  }

  /** Two chats created within the same clock millisecond share an id. */
  lemma SameClockDuplicatesId(sessions: seq<ChatSession>, t: nat, stamp1: int, stamp2: int)
    ensures var first := CreateChat(sessions, t, stamp1);
      var second := CreateChat(first.sessions, t, stamp2);
      second.id == first.id && second.sessions[0].id == second.sessions[1].id
  {
  }

  /** `updateChatTitle`: every session with the given id gets the new title
      and the time `now`; every other session is left as it was. The source
      reads `Date.now()` once per matching session; `now` stands for all of
      those readings. */
  function UpdateChatTitle(sessions: seq<ChatSession>, id: string, title: string, now: int): (r: seq<ChatSession>)
    ensures |r| == |sessions|
    ensures forall i :: 0 <= i < |r| && sessions[i].id == id ==> r[i] == ChatSession(id, title, now)
    ensures forall i :: 0 <= i < |r| && sessions[i].id != id ==> r[i] == sessions[i]
  {
    if |sessions| == 0 then []
    else
      var chat := sessions[0];
      var updated := if chat.id == id then chat.(title := title, lastUpdated := now) else chat;
      [updated] + UpdateChatTitle(sessions[1..], id, title, now)
  }

  /** The ids, and their order, never change. */
  lemma UpdateKeepsIds(sessions: seq<ChatSession>, id: string, title: string, now: int)
    ensures Ids(UpdateChatTitle(sessions, id, title, now)) == Ids(sessions)
  {
  }

  /** Renaming an id that is not in the list changes nothing. */
  lemma UpdateAbsentId(sessions: seq<ChatSession>, id: string, title: string, now: int)
    requires id !in Ids(sessions)
    ensures UpdateChatTitle(sessions, id, title, now) == sessions
  {
    var r := UpdateChatTitle(sessions, id, title, now);
    forall i | 0 <= i < |sessions| ensures r[i] == sessions[i] {
      assert Ids(sessions)[i] != id;
    }
  }

  /** Renaming twice with the same arguments is renaming once. */
  lemma UpdateIdempotent(sessions: seq<ChatSession>, id: string, title: string, now: int)
    ensures var once := UpdateChatTitle(sessions, id, title, now);
      UpdateChatTitle(once, id, title, now) == once
  {
    var once := UpdateChatTitle(sessions, id, title, now);
    var twice := UpdateChatTitle(once, id, title, now);
    forall i | 0 <= i < |once| ensures twice[i] == once[i] {
    }
  }

  /** Renaming the chat just created titles the new front entry and renames
      nothing else when its id was fresh, as the chat screen does on the
      first question. */
  lemma CreateThenRename(sessions: seq<ChatSession>, idClock: nat, stampClock: int, title: string, now: int)
    requires IdsFromEarlierClocks(sessions, idClock)
    ensures var c := CreateChat(sessions, idClock, stampClock);
      UpdateChatTitle(c.sessions, c.id, title, now) == [ChatSession(c.id, title, now)] + sessions
  {
    var c := CreateChat(sessions, idClock, stampClock);
    CreateChatFreshId(sessions, idClock, stampClock);
    UpdateAbsentId(sessions, c.id, title, now);
    assert c.sessions == [c.sessions[0]] + sessions;
  }
}
