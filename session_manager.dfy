/**
 * The chat-session sidebar: the session and message records, the name a
 * session is listed under, the cap on creating sessions from the sidebar and
 * the per-session "upload a document" toggles.
 */
module SessionManager {
  import opened Wrappers
  import opened Text

  datatype Sender = User | Bot

  /** One chat message; times are milliseconds since the epoch. */
  datatype ChatMessage = ChatMessage(id: string, text: string, sender: Sender, timestamp: nat)

  datatype ChatSession = ChatSession(id: string, name: string, messages: seq<ChatMessage>, documentName: Option<string>, createdAt: nat)

  /** The most sessions the "New Chat" button lets exist. */
  const MaxSessions := 20
  const DefaultSessionName := "New Chat"
  /** How much of the first question a session is listed under. */
  const NameLength := 20
  const SessionCapMessage := "Cannot create more than 20 sessions. Please delete some existing sessions."

  /** The first `n` messages all come from the bot. */
  predicate BotOnly(messages: seq<ChatMessage>, n: nat)
    requires n <= |messages|
  {
    forall j :: 0 <= j < n ==> messages[j].sender == Bot
  }

  /** After a bot message, the bot-only prefixes of the rest are one shorter. */
  lemma BotOnlyShift(messages: seq<ChatMessage>, n: nat)
    requires 0 < |messages| && messages[0].sender == Bot && n < |messages|
    ensures BotOnly(messages, n + 1) <==> BotOnly(messages[1..], n)
  {
    assert forall j :: 0 <= j < n ==> messages[1..][j] == messages[j + 1];
    if BotOnly(messages[1..], n) {
      forall j | 0 <= j < n + 1
        ensures messages[j].sender == Bot
      {
        if j > 0 {
          assert messages[j] == messages[1..][j - 1];
        }
      }
    }
  }

  /** The text of the first message sent by the user, if there is one. */
  function FirstUserText(messages: seq<ChatMessage>): (r: Option<string>)
    ensures r.None? <==> BotOnly(messages, |messages|)
    ensures r.Some? ==> exists i :: 0 <= i < |messages| && messages[i].sender == User && messages[i].text == r.value && BotOnly(messages, i)
  {
    if messages == [] then None
    else if messages[0].sender == User then
      assert BotOnly(messages, 0);
      Some(messages[0].text)
    else
      var r := FirstUserText(messages[1..]);
      BotOnlyShift(messages, |messages| - 1);
      if r.Some? then
        var k :| 0 <= k < |messages[1..]| && messages[1..][k].sender == User && messages[1..][k].text == r.value
                 && BotOnly(messages[1..], k);
        BotOnlyShift(messages, k);
        assert messages[k + 1] == messages[1..][k];
        r
      else
        r
  }

  /**
   * `getSessionName`: a given name other than "New Chat"; else the first
   * question, cut to 20 characters; else the document name; else "Chat "
   * and the creation date, whose rendering `dateLabel` stands for.
   */
  function SessionName(session: ChatSession, dateLabel: string): (name: string)
    ensures name != []
  {
    if session.name != [] && session.name != DefaultSessionName then session.name
    else
      var question := FirstUserText(session.messages);
      if question.Some? && question.value != [] then Truncate(question.value, NameLength)
      else if session.documentName.Some? && session.documentName.value != [] then session.documentName.value
      else "Chat " + dateLabel
  }

  /** A name of its own, other than the default, is what the session is listed under. */
  lemma OwnNameWins(session: ChatSession, dateLabel: string)
    requires session.name != [] && session.name != DefaultSessionName
    ensures SessionName(session, dateLabel) == session.name
  {
  }

  /** Without a name of its own, a session is listed under its first question, cut to 20 characters and marked with "...". */
  lemma NamedAfterFirstQuestion(session: ChatSession, dateLabel: string, i: nat)
    requires session.name == [] || session.name == DefaultSessionName
    requires i < |session.messages| && session.messages[i].sender == User && session.messages[i].text != []
    requires forall j :: 0 <= j < i ==> session.messages[j].sender == Bot
    ensures var q := session.messages[i].text; var name := SessionName(session, dateLabel);
      && (|q| <= NameLength ==> name == q)
      && (|q| > NameLength ==> name == q[..NameLength] + "...")
  {
    var r := FirstUserText(session.messages);
    var k :| 0 <= k < |session.messages| && session.messages[k].sender == User && session.messages[k].text == r.value
             && BotOnly(session.messages, k);
    assert k == i;
  }

  /** Bot messages never contribute to the name: dropping them changes nothing. */
  lemma {:induction false} BotMessagesIgnored(messages: seq<ChatMessage>, bot: ChatMessage)
    requires bot.sender == Bot
    ensures FirstUserText([bot] + messages) == FirstUserText(messages)
  {
    assert ([bot] + messages)[1..] == messages;
  }

  /** A first question that is empty is not skipped over: the name falls back to the document or the date. */
  lemma EmptyFirstQuestionFallsBack(session: ChatSession, dateLabel: string)
    requires session.name == [] || session.name == DefaultSessionName
    requires FirstUserText(session.messages) == Some("")
    ensures SessionName(session, dateLabel) ==
      if session.documentName.Some? && session.documentName.value != [] then session.documentName.value else "Chat " + dateLabel
  {
  }

  /** `!prev[id]`: an absent flag counts as closed, so toggling it opens the uploader. */
  function Toggled(flags: map<string, bool>, sessionId: string): (r: map<string, bool>)
    ensures sessionId in r && r[sessionId] == !(sessionId in flags && flags[sessionId])
    ensures forall k :: k != sessionId ==> (k in r <==> k in flags) && (k in flags ==> r[k] == flags[k])
  {
    flags[sessionId := !(sessionId in flags && flags[sessionId])]
  }

  /** Toggling twice restores the uploader's visibility and touches no other session. */
  lemma ToggleTwice(flags: map<string, bool>, sessionId: string)
    ensures var twice := Toggled(Toggled(flags, sessionId), sessionId);
      && twice[sessionId] == (sessionId in flags && flags[sessionId])
      && forall k :: k != sessionId ==> (k in twice <==> k in flags) && (k in flags ==> twice[k] == flags[k])
  {
  }

  /** The sidebar's own state. */
  class SidebarState {
    /** Which sessions show their uploader. */
    var sessionUploaders: map<string, bool>
    /** The error banner, if shown. */
    var sessionError: Option<string>

    constructor ()
      ensures sessionUploaders == map[] && sessionError == None
    {
      sessionUploaders := map[];
      sessionError := None;
    }

    /** `toggleSessionUploader` */
    method ToggleSessionUploader(sessionId: string)
      modifies this
      ensures sessionUploaders == Toggled(old(sessionUploaders), sessionId)
      ensures sessionError == old(sessionError)
    {
      sessionUploaders := sessionUploaders[sessionId := !(sessionId in sessionUploaders && sessionUploaders[sessionId])];
    }

    /**
     * `handleFileUploadForSession`, after the upload handler has settled:
     * once it resolves, the session's uploader is closed; a rejection leaves
     * the flags alone.
     */
    method HandleFileUploadForSession(sessionId: Option<string>, uploadRejected: bool)
      modifies this
      ensures !uploadRejected && sessionId.Some? && sessionId.value != [] ==>
        sessionUploaders == old(sessionUploaders)[sessionId.value := false]
      ensures uploadRejected || sessionId.None? || sessionId.value == [] ==> sessionUploaders == old(sessionUploaders)
      ensures sessionError == old(sessionError)
    {
      if !uploadRejected && sessionId.Some? && sessionId.value != [] {
        sessionUploaders := sessionUploaders[sessionId.value := false];
      }
    }

    /** `handleNewSession`: at 20 sessions or more it shows the cap error instead of creating one. */
    method HandleNewSession(sessionCount: nat) returns (create: bool)
      modifies this
      ensures create <==> sessionCount < MaxSessions
      ensures !create ==> sessionError == Some(SessionCapMessage)
      ensures create ==> sessionError == old(sessionError)
      ensures sessionUploaders == old(sessionUploaders)
    {
      if sessionCount >= MaxSessions {
        sessionError := Some(SessionCapMessage);
        return false;
      }
      return true;
    }

    /** The timer that hides the cap error. */
    method ClearSessionError()
      modifies this
      ensures sessionError == None && sessionUploaders == old(sessionUploaders)
    {
      sessionError := None;
    }
  }
}
