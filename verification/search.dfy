/** The message search of `app/search.tsx`: when a search is issued, and how
    the messages the backend returns become the rows shown on screen. The
    backend's answer is an input; debouncing and the loading flag are not
    modelled. */
module Search {
  import opened Wrappers
  import opened Text
  import opened ChatContext

  /** A message record as the search endpoint returns it. */
  datatype ApiSearchResult = ApiSearchResult(msgId: int, consId: string, sender: string, content: string, sendTime: string)

  datatype MessageKind = Question | Answer

  /** A row of the result list. */
  datatype DisplayResult = DisplayResult(id: string, text: string, kind: MessageKind, sessionId: string, sessionTitle: string)

  /** The call the screen makes: user and trimmed keyword. */
  datatype SearchRequest = SearchRequest(userId: string, keyword: string)

  /** What the backend call produced: a thrown error or a message list. */
  datatype SearchResponse = Failed | Found(messages: seq<ApiSearchResult>)

  const UserSender: string := "USER"
  const FallbackTitle: string := "이전 채팅"
  const MinKeywordLength: nat := 2

  /** The search is skipped for a missing or empty user id and for a query
      shorter than two UTF-16 code units once trimmed; otherwise it asks for
      the trimmed query. */
  function SearchRequestFor(userId: Option<string>, query: string): (r: Option<SearchRequest>)
    ensures r.None? <==> userId.GetOr("") == "" || Utf16Length(Trim(query)) < MinKeywordLength
    ensures r.Some? ==> r.value.userId == userId.value && IsTrimOf(r.value.keyword, query)
  {
    if userId.None? || userId.value == "" || Utf16Length(Trim(query)) < MinKeywordLength then None
    else Some(SearchRequest(userId.value, Trim(query)))
  }

  /** A keyword of one character is searched exactly when that character is
      stored as a surrogate pair, since the length counts code units. */
  lemma SingleCharacterKeyword(userId: string, c: char)
    requires userId != "" && !IsJsWhitespace(c)
    ensures SearchRequestFor(Some(userId), [c]).Some? <==> IsAstral(c)
  {
    var t := Trim([c]);
    var lo :| 0 <= lo && lo + |t| <= 1 && t == [c][lo..lo + |t|]
      && AllWhitespace([c][..lo]) && AllWhitespace([c][lo + |t|..]);
    assert lo == 0 && |t| == 1;
    assert t == [c];
    assert Utf16Length(t) == (if IsAstral(c) then 2 else 1) + Utf16Length(t[1..]);
  }

  /** A query of white space alone never reaches the backend. */
  lemma BlankQueryNotSearched(userId: Option<string>, query: string)
    requires AllWhitespace(query)
    ensures SearchRequestFor(userId, query) == None
  {
    TrimEmptyIff(query);
  }

  /** Session `i` is the last one in list order with its id. */
  ghost predicate LastWithId(sessions: seq<ChatSession>, i: int) {
    0 <= i < |sessions| && forall j :: i < j < |sessions| ==> sessions[j].id != sessions[i].id
  }

  /** The entries of a title map: its keys are the ids of `sessions`, and
      each key maps to the title of the last session with that id. */
  ghost predicate TitleMapOf(sessions: seq<ChatSession>, m: map<string, string>) {
    && (forall k :: k in m <==> k in Ids(sessions))
    && (forall k :: k in m ==>
          exists i :: LastWithId(sessions, i) && sessions[i].id == k && m[k] == sessions[i].title)
  }

  /** Adding one more session to a title map overwrites its id's entry. */
  lemma TitleMapSnoc(init: seq<ChatSession>, last: ChatSession, m0: map<string, string>)
    requires TitleMapOf(init, m0)
    ensures TitleMapOf(init + [last], m0[last.id := last.title])
  {
    var sessions, m := init + [last], m0[last.id := last.title];
    assert LastWithId(sessions, |sessions| - 1);
    forall k | k in m && k != last.id
      ensures exists i :: LastWithId(sessions, i) && sessions[i].id == k && m[k] == sessions[i].title
    {
      var i :| LastWithId(init, i) && init[i].id == k && m0[k] == init[i].title;
      assert LastWithId(sessions, i);
    }
    assert Ids(sessions) == Ids(init) + [last.id];
  }

  /** `new Map(chatSessions.map(s => [s.id, s.title]))`: later entries
      overwrite earlier ones with the same id. */
  function TitleMap(sessions: seq<ChatSession>): (m: map<string, string>)
    ensures TitleMapOf(sessions, m)
  {
    if |sessions| == 0 then map[]
    else
      var init, last := sessions[..|sessions| - 1], sessions[|sessions| - 1];
      var m0 := TitleMap(init);
      TitleMapSnoc(init, last, m0);
      assert init + [last] == sessions;
      m0[last.id := last.title]
  }

  /** At most one session is the last with a given id. */
  lemma LastWithIdUnique(sessions: seq<ChatSession>, i: int, j: int)
    requires LastWithId(sessions, i) && LastWithId(sessions, j)
    requires sessions[i].id == sessions[j].id
    ensures i == j
  {
  }

  /** The title shown for `consId`: that of the last session with this id if
      it is non-empty, and the fallback title when there is no such session
      or its title is empty. */
  ghost predicate TitleShown(sessions: seq<ChatSession>, consId: string, t: string) {
    || (exists i :: LastWithId(sessions, i) && sessions[i].id == consId
          && sessions[i].title != "" && t == sessions[i].title)
    || (t == FallbackTitle
          && forall i :: LastWithId(sessions, i) && sessions[i].id == consId ==> sessions[i].title == "")
  }

  /** `sessionTitleMap.get(msg.CONS_ID) || '이전 채팅'`: a missing entry and
      an empty title both fall back. */
  function TitleFor(titles: map<string, string>, consId: string): (t: string)
    ensures t == FallbackTitle || (consId in titles && t == titles[consId])
    ensures consId in titles && titles[consId] != "" ==> t == titles[consId]
    ensures t != ""
  {
    if consId in titles && titles[consId] != "" then titles[consId] else FallbackTitle
  }

  lemma TitleForShowsLastSession(sessions: seq<ChatSession>, consId: string)
    ensures TitleShown(sessions, consId, TitleFor(TitleMap(sessions), consId))
  {
    var m := TitleMap(sessions);
    if consId in m {
      var i :| LastWithId(sessions, i) && sessions[i].id == consId && m[consId] == sessions[i].title;
      forall j | LastWithId(sessions, j) && sessions[j].id == consId ensures j == i {
        LastWithIdUnique(sessions, i, j);
      }
    }
  }

  /** One element of `apiResults.map(...)`. */
  function ToDisplay(msg: ApiSearchResult, titles: map<string, string>): (r: DisplayResult)
    ensures r.text == msg.content && r.sessionId == msg.consId
    ensures r.kind == Question <==> msg.sender == UserSender
    ensures ParseDecimal(r.id) == Some(msg.msgId)
    ensures r.sessionTitle ==
      (if msg.consId in titles && titles[msg.consId] != "" then titles[msg.consId] else FallbackTitle)
  {
    DecimalRoundTrip(msg.msgId);
    DisplayResult(
      IntToDecimal(msg.msgId),
      msg.content,
      if msg.sender == UserSender then Question else Answer,
      msg.consId,
      TitleFor(titles, msg.consId))
  }

  /** The fields of `row` that come from `msg` alone: its text and session
      id, a question exactly for the user's messages, and an id that reads
      back as the message id. */
  ghost predicate RowContent(row: DisplayResult, msg: ApiSearchResult) {
    && row.text == msg.content
    && row.sessionId == msg.consId
    && (row.kind == Question <==> msg.sender == UserSender)
    && ParseDecimal(row.id) == Some(msg.msgId)
  }

  /** `row` is what `ToDisplay` makes of `msg`, with the title looked up
      in `titles`. */
  ghost predicate RowFor(row: DisplayResult, msg: ApiSearchResult, titles: map<string, string>) {
    RowContent(row, msg) && row.sessionTitle == TitleFor(titles, msg.consId)
  }

  /** Rows for the first message and for the rest make rows for them all. */
  lemma RowsCons(head: DisplayResult, tail: seq<DisplayResult>, messages: seq<ApiSearchResult>, titles: map<string, string>)
    requires |messages| > 0 && |tail| == |messages| - 1
    requires RowFor(head, messages[0], titles)
    requires forall k :: 0 <= k < |tail| ==> RowFor(tail[k], messages[1..][k], titles)
    ensures forall k :: 0 <= k < |messages| ==> RowFor(([head] + tail)[k], messages[k], titles)
  {
    var r := [head] + tail;
    forall k | 1 <= k < |r| ensures RowFor(r[k], messages[k], titles) {
      assert r[k] == tail[k - 1] && messages[k] == messages[1..][k - 1];
    }
  }

  /** `apiResults.map(...)`: one row per message, in the same order. */
  function ToDisplayList(messages: seq<ApiSearchResult>, titles: map<string, string>): (r: seq<DisplayResult>)
    ensures |r| == |messages|
    ensures forall k :: 0 <= k < |r| ==> RowFor(r[k], messages[k], titles)
  {
    if |messages| == 0 then []
    else
      var head, tail := ToDisplay(messages[0], titles), ToDisplayList(messages[1..], titles);
      var r := [head] + tail;
      RowsCons(head, tail, messages, titles);
      r
  }

  /** `searchMessages`: the rows the screen ends up with, given the user,
      the query, the session list and what the backend answered. */
  function SearchResults(userId: Option<string>, query: string, sessions: seq<ChatSession>, response: SearchResponse): (r: seq<DisplayResult>)
    ensures SearchRequestFor(userId, query).None? ==> r == []
    ensures response.Failed? ==> r == []
    ensures SearchRequestFor(userId, query).Some? && response.Found? ==>
      var ms := response.messages;
      && |r| == |ms|
      && forall k :: 0 <= k < |r| ==>
        RowContent(r[k], ms[k]) && TitleShown(sessions, ms[k].consId, r[k].sessionTitle)
  {
    var titles := TitleMap(sessions);
    if SearchRequestFor(userId, query).None? then []
    else match response
      case Failed => []
      case Found(ms) =>
        var rows := ToDisplayList(ms, titles);
        assert forall k :: 0 <= k < |rows| ==> TitleShown(sessions, ms[k].consId, rows[k].sessionTitle) by {
          forall k | 0 <= k < |rows| ensures TitleShown(sessions, ms[k].consId, rows[k].sessionTitle) {
            TitleForShowsLastSession(sessions, ms[k].consId);
          }
        }
        rows
  }
}
