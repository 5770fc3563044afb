/**
 * The chat page: the registry of sessions, the documents attached to them,
 * the active-session pointer, and what the page keeps in browser storage.
 * Identifiers and clock readings are parameters; the remote model's replies
 * are `AiService.Completion` values and the document loader's behaviour is a
 * `PdfService.LoadOutcome`.
 */
module Chat {
  import opened Wrappers
  import opened Text
  import opened SessionManager
  import PdfService
  import AiService

  /** The text extracted from a session's document, with the file's name. */
  datatype Document = Document(text: string, name: string)

  /** What the page shows and stores: the sessions, newest first as created, the documents by session id and the active session. */
  datatype Registry = Registry(sessions: seq<ChatSession>, documents: map<string, Document>, active: Option<string>)

  /** A stored entry: absent, present but unreadable, or readable. */
  datatype Stored<T> = Missing | Corrupt | Present(value: T)

  /** The three storage keys the page uses. */
  datatype Snapshot = Snapshot(chatSessions: Stored<seq<ChatSession>>, sessionDocuments: Stored<map<string, Document>>, lastActiveSessionId: Option<string>)

  const GreetingText := "\U{1F44B} Hello! I am AskNoteBot. I can help you understand your document better. What would you like to know?"
  const AnswerErrorText := "I encountered an error while processing your question. Please try again."
  const EmptyFileMessage := "The selected file is empty"
  const FileTooLargeMessage := "File size too large. Please upload a PDF smaller than 50MB"
  const NoTextExtractedMessage := "Could not extract text from the PDF. The file might be corrupted or password protected."
  /** 50 MB. */
  const MaxFileSize := 50 * 1024 * 1024

  const EmptySnapshot := Snapshot(Missing, Missing, None)

  // ---------------------------------------------------------------------------
  // Sessions

  predicate Listed(id: string, sessions: seq<ChatSession>) {
    exists i | 0 <= i < |sessions| :: sessions[i].id == id
  }

  /** A fresh session whose only message is the bot's greeting. */
  function GreetingSession(id: string, greetingId: string, now: nat, name: string, documentName: Option<string>): ChatSession {
    ChatSession(id, name, [ChatMessage(greetingId, GreetingText, Bot, now)], documentName, now)
  }

  /** The part of a file name before its first dot. */
  function BeforeFirstDot(fileName: string): (stem: string)
    ensures |stem| <= |fileName| && stem == fileName[..|stem|]
    ensures '.' !in stem
    ensures |stem| < |fileName| ==> fileName[|stem|] == '.'
  {
    if fileName == [] || fileName[0] == '.' then [] else [fileName[0]] + BeforeFirstDot(fileName[1..])
  }

  /** `file.name.split('.')[0] || 'New Chat'` */
  function UploadName(fileName: string): (name: string)
    ensures name != []
    ensures '.' !in name || name == DefaultSessionName
  {
    var stem := BeforeFirstDot(fileName);
    if stem == [] then DefaultSessionName else stem
  }

  /** The first `n` sessions were all created before `time`. */
  predicate CreatedBefore(sessions: seq<ChatSession>, n: nat, time: nat)
    requires n <= |sessions|
  {
    forall j :: 0 <= j < n ==> sessions[j].createdAt < time
  }

  /** The session listed first among those created last: what a stable newest-first sort puts in front. */
  function MostRecent(sessions: seq<ChatSession>): (s: ChatSession)
    requires sessions != []
    ensures s in sessions
    ensures forall t :: t in sessions ==> t.createdAt <= s.createdAt
    ensures exists i :: 0 <= i < |sessions| && sessions[i] == s && CreatedBefore(sessions, i, s.createdAt)
  {
    if |sessions| == 1 then
      assert CreatedBefore(sessions, 0, sessions[0].createdAt);
      sessions[0]
    else
      var m := MostRecent(sessions[1..]);
      assert forall t :: t in sessions ==> t == sessions[0] || t in sessions[1..];
      if sessions[0].createdAt >= m.createdAt then
        assert CreatedBefore(sessions, 0, sessions[0].createdAt);
        sessions[0]
      else
        var k :| 0 <= k < |sessions[1..]| && sessions[1..][k] == m && CreatedBefore(sessions[1..], k, m.createdAt);
        assert sessions[k + 1] == m;
        assert CreatedBefore(sessions, k + 1, m.createdAt) by {
          forall j | 0 <= j < k + 1
            ensures sessions[j].createdAt < m.createdAt
          {
            if j > 0 {
              assert sessions[j] == sessions[1..][j - 1];
            }
          }
        }
        m
  }

  predicate NewestFirst(sessions: seq<ChatSession>) {
    forall i, j :: 0 <= i < j < |sessions| ==> sessions[i].createdAt >= sessions[j].createdAt
  }

  /** Inserts `x` before the first session created no later than it, which keeps the sort stable. */
  function InsertNewestFirst(x: ChatSession, sorted: seq<ChatSession>): (r: seq<ChatSession>)
    ensures multiset(r) == multiset(sorted) + multiset{x}
    ensures |r| == |sorted| + 1
  {
    if sorted == [] || x.createdAt >= sorted[0].createdAt then [x] + sorted
    else
      assert sorted == [sorted[0]] + sorted[1..];
      [sorted[0]] + InsertNewestFirst(x, sorted[1..])
  }

  /** A newest-first list stays so behind a head created no earlier than any of its sessions. */
  lemma NewestFirstCons(h: ChatSession, t: seq<ChatSession>)
    requires NewestFirst(t)
    requires forall k :: 0 <= k < |t| ==> t[k].createdAt <= h.createdAt
    ensures NewestFirst([h] + t)
  {
    var r := [h] + t;
    forall i, j | 0 <= i < j < |r|
      ensures r[i].createdAt >= r[j].createdAt
    {
      assert r[j] == t[j - 1];
      if i > 0 {
        assert r[i] == t[i - 1];
      }
    }
  }

  lemma {:induction false} InsertKeepsNewestFirst(x: ChatSession, sorted: seq<ChatSession>)
    requires NewestFirst(sorted)
    ensures NewestFirst(InsertNewestFirst(x, sorted))
  {
    if sorted == [] || x.createdAt >= sorted[0].createdAt {
      NewestFirstCons(x, sorted);
    } else {
      var rest := InsertNewestFirst(x, sorted[1..]);
      InsertKeepsNewestFirst(x, sorted[1..]);
      forall k | 0 <= k < |rest|
        ensures rest[k].createdAt <= sorted[0].createdAt
      {
        var y := rest[k];
        assert y in multiset(rest);
        if y != x {
          assert y in multiset(sorted[1..]);
          var m :| 0 <= m < |sorted[1..]| && sorted[1..][m] == y;
          assert sorted[m + 1] == y;
        }
      }
      NewestFirstCons(sorted[0], rest);
    }
  }

  /** Where the inserted session lands decides the new head. */
  lemma InsertHead(x: ChatSession, sorted: seq<ChatSession>)
    ensures InsertNewestFirst(x, sorted)[0] == if sorted == [] || x.createdAt >= sorted[0].createdAt then x else sorted[0]
  {
  }

  /** The in-place `sort((a, b) => b.createdAt - a.createdAt)`: newest first, stable, a permutation of its input. */
  function SortNewestFirst(sessions: seq<ChatSession>): (r: seq<ChatSession>)
    ensures multiset(r) == multiset(sessions)
    ensures |r| == |sessions|
    ensures NewestFirst(r)
  {
    if sessions == [] then []
    else
      var rest := SortNewestFirst(sessions[1..]);
      assert sessions == [sessions[0]] + sessions[1..];
      InsertKeepsNewestFirst(sessions[0], rest);
      InsertNewestFirst(sessions[0], rest)
  }

  /** The sort is stable at the front: it leads with the session `MostRecent` picks. */
  lemma {:induction false} SortLeadsWithMostRecent(sessions: seq<ChatSession>)
    requires sessions != []
    ensures SortNewestFirst(sessions)[0] == MostRecent(sessions)
  {
    var rest := SortNewestFirst(sessions[1..]);
    InsertHead(sessions[0], rest);
    if |sessions| > 1 {
      SortLeadsWithMostRecent(sessions[1..]);
    }
  }

  /** `sessions.filter(s => s.id !== id)` */
  function WithoutSession(sessions: seq<ChatSession>, id: string): (r: seq<ChatSession>)
    ensures |r| <= |sessions|
    ensures forall s {:trigger s in r} :: s in r <==> s in sessions && s.id != id
  {
    if sessions == [] then []
    else (if sessions[0].id != id then [sessions[0]] else []) + WithoutSession(sessions[1..], id)
  }

  /** Removing a session distributes over concatenation, and a single session is kept exactly when its id differs: the order of the rest is kept. */
  lemma {:induction false} WithoutSessionDistributes(a: seq<ChatSession>, b: seq<ChatSession>, id: string)
    ensures WithoutSession(a + b, id) == WithoutSession(a, id) + WithoutSession(b, id)
    ensures |a| == 1 ==> WithoutSession(a, id) == (if a[0].id != id then a else [])
    decreases |a|
  {
    if a == [] {
      assert a + b == b;
    } else {
      var head := if a[0].id != id then [a[0]] else [];
      calc {
        WithoutSession(a + b, id);
      == { assert (a + b)[1..] == a[1..] + b; }
        head + WithoutSession(a[1..] + b, id);
      == { WithoutSessionDistributes(a[1..], b, id); }
        head + (WithoutSession(a[1..], id) + WithoutSession(b, id));
      ==
        (head + WithoutSession(a[1..], id)) + WithoutSession(b, id);
      }
      if |a| == 1 {
        assert WithoutSession(a[1..], id) == [] by { assert a[1..] == []; }
        assert head + [] == head;
      }
    }
  }


  /** Adds a message at the end of every session with the given id. */
  function AppendTo(sessions: seq<ChatSession>, id: string, m: ChatMessage): (r: seq<ChatSession>)
    ensures |r| == |sessions|
    ensures forall i :: 0 <= i < |r| ==> r[i].id == sessions[i].id
  {
    seq(|sessions|, i requires 0 <= i < |sessions| =>
      if sessions[i].id == id then sessions[i].(messages := sessions[i].messages + [m]) else sessions[i])
  }

  /** After a question is answered, the active session ends with exactly the question and one reply; every other session is as it was. */
  lemma ExchangeAppendsTwo(sessions: seq<ChatSession>, id: string, question: ChatMessage, reply: ChatMessage)
    ensures var after := AppendTo(AppendTo(sessions, id, question), id, reply);
      && |after| == |sessions|
      && forall i :: 0 <= i < |sessions| ==>
        if sessions[i].id == id then after[i] == sessions[i].(messages := sessions[i].messages + [question, reply])
        else after[i] == sessions[i]
  {
    var after := AppendTo(AppendTo(sessions, id, question), id, reply);
    forall i | 0 <= i < |sessions| && sessions[i].id == id
      ensures after[i] == sessions[i].(messages := sessions[i].messages + [question, reply])
    {
      assert sessions[i].messages + [question] + [reply] == sessions[i].messages + [question, reply];
    }
  }

  // ---------------------------------------------------------------------------
  // Registry operations as functions of the state

  /** `deleteSession`: the session and its document go; if it was active, the most recent remaining session becomes active. */
  function AfterDelete(reg: Registry, id: string): (after: Registry)
    ensures forall s :: s in after.sessions <==> s in reg.sessions && s.id != id
    ensures after.documents == reg.documents - {id}
    ensures reg.active != Some(id) ==> after.active == reg.active
  {
    var remaining := WithoutSession(reg.sessions, id);
    var active :=
      if reg.active == Some(id) then
        if remaining != [] then Some(SortNewestFirst(remaining)[0].id) else None
      else reg.active;
    Registry(remaining, reg.documents - {id}, active)
  }

  /** Deleting the active session hands the pointer to the remaining session created last (the first of them on ties), or to nobody. */
  lemma DeleteReelectsMostRecent(reg: Registry, id: string)
    requires reg.active == Some(id)
    ensures var after := AfterDelete(reg, id);
      && (after.active.None? <==> forall s :: s in reg.sessions ==> s.id == id)
      && (after.active.Some? ==>
            exists s :: s in after.sessions && s.id == after.active.value
              && s.id != id
              && forall t :: t in reg.sessions && t.id != id ==> t.createdAt <= s.createdAt)
  {
    var remaining := WithoutSession(reg.sessions, id);
    if remaining != [] {
      SortLeadsWithMostRecent(remaining);
      var s := MostRecent(remaining);
      assert s in remaining;
    } else {
      assert forall s :: s in reg.sessions && s.id != id ==> s in remaining;
    }
  }

  /** The active pointer names a listed session exactly when there are sessions. */
  predicate ActiveListed(reg: Registry) {
    || (reg.active.None? && reg.sessions == [])
    || (reg.active.Some? && reg.active.value != [] && Listed(reg.active.value, reg.sessions))
  }

  predicate IdsNonEmpty(sessions: seq<ChatSession>) {
    forall i :: 0 <= i < |sessions| ==> sessions[i].id != []
  }

  /** Deleting keeps the active pointer on a listed session. */
  lemma DeleteKeepsActiveListed(reg: Registry, id: string)
    requires ActiveListed(reg) && IdsNonEmpty(reg.sessions)
    ensures ActiveListed(AfterDelete(reg, id)) && IdsNonEmpty(AfterDelete(reg, id).sessions)
  {
    var after := AfterDelete(reg, id);
    var remaining := after.sessions;
    assert IdsNonEmpty(remaining) by {
      forall i | 0 <= i < |remaining|
        ensures remaining[i].id != []
      {
        assert remaining[i] in remaining;
        assert remaining[i] in reg.sessions;
      }
    }
    if reg.active == Some(id) {
      if remaining != [] {
        assert Listed(after.active.value, remaining) by {
          assert remaining[0].id != [];
          assert after.active.value == SortNewestFirst(remaining)[0].id;
          assert SortNewestFirst(remaining)[0] in multiset(remaining);
        }
      }
    } else if reg.active.Some? {
      var i :| 0 <= i < |reg.sessions| && reg.sessions[i].id == reg.active.value;
      assert reg.sessions[i] in remaining;
    }
  }

  // ---------------------------------------------------------------------------
  // Storage

  /** The page's start-up restore from storage. */
  function Load(snap: Snapshot): (r: Registry)
    ensures r.active.Some? ==> Listed(r.active.value, r.sessions)
    ensures snap.chatSessions.Present? ==> multiset(r.sessions) == multiset(snap.chatSessions.value)
    ensures !snap.chatSessions.Present? ==> r == Registry([], map[], None)
    ensures snap.chatSessions.Present? && snap.sessionDocuments.Present? ==> r.documents == snap.sessionDocuments.value
  {
    match snap.chatSessions
    case Missing => Registry([], map[], None)
    case Corrupt => Registry([], map[], None)
    case Present(sessions) =>
      match snap.sessionDocuments
      case Corrupt => Registry(sessions, map[], None)
      case Missing => Restore(sessions, map[], snap.lastActiveSessionId)
      case Present(documents) => Restore(sessions, documents, snap.lastActiveSessionId)
  }

  /** The stored active session if it is still listed; else the most recent session. */
  function Restore(sessions: seq<ChatSession>, documents: map<string, Document>, last: Option<string>): (r: Registry)
    ensures multiset(r.sessions) == multiset(sessions) && r.documents == documents
    ensures r.active.None? <==> sessions == []
    ensures r.active.Some? ==> Listed(r.active.value, r.sessions)
    ensures last.Some? && last.value != [] && Listed(last.value, sessions) ==> r == Registry(sessions, documents, last)
    ensures !(last.Some? && last.value != [] && Listed(last.value, sessions)) && sessions != [] ==>
      r.active == Some(MostRecent(sessions).id)
  {
    if last.Some? && last.value != [] && Listed(last.value, sessions) then Registry(sessions, documents, last)
    else if sessions != [] then
      var sorted := SortNewestFirst(sessions);
      SortLeadsWithMostRecent(sessions);
      assert sorted[0] in sorted;
      Registry(sorted, documents, Some(sorted[0].id))
    else Registry(sessions, documents, None)
  }

  /** Storage as the page's save effects leave it: each key written only while its value is non-empty. */
  function SaveAsWritten(stored: Snapshot, reg: Registry): (r: Snapshot)
    ensures reg.sessions != [] && |reg.documents| > 0 && reg.active.Some? && reg.active.value != [] ==> r == Save(reg)
    ensures reg.sessions == [] && reg.documents == map[] && reg.active.None? ==> r == stored
  {
    Snapshot(
      if |reg.sessions| > 0 then Present(reg.sessions) else stored.chatSessions,
      if |reg.documents| > 0 then Present(reg.documents) else stored.sessionDocuments,
      if reg.active.Some? && reg.active.value != [] then reg.active else stored.lastActiveSessionId)
  }

  /** Storage written from the state alone: every key is written, empty values included, and the active id whenever there is one. */
  function Save(reg: Registry): (r: Snapshot)
    ensures r.chatSessions == Present(reg.sessions) && r.sessionDocuments == Present(reg.documents)
    ensures r.lastActiveSessionId.Some? <==> reg.active.Some? && reg.active.value != []
    ensures r.lastActiveSessionId.Some? ==> r.lastActiveSessionId == reg.active
  {
    Snapshot(Present(reg.sessions), Present(reg.documents),
      if reg.active.Some? && reg.active.value != [] then reg.active else None)
  }

  /** Storing and then restoring gives back the same sessions, documents and active session. */
  lemma ReloadRestores(reg: Registry)
    requires ActiveListed(reg)
    ensures Load(Save(reg)) == reg
  {
  }

  /** With the save effects as written, a deleted last session comes back on the next visit. */
  lemma DeletedLastSessionReappears()
    ensures var s := GreetingSession("s1", "m1", 0, DefaultSessionName, None);
      var before := Registry([s], map[], Some("s1"));
      var after := AfterDelete(before, "s1");
      var stored := SaveAsWritten(SaveAsWritten(EmptySnapshot, before), after).(lastActiveSessionId := None);
      && after == Registry([], map[], None)
      && Load(stored) == before
      && Load(stored) != after
      && Load(Save(after)) == after
  {
    var s := GreetingSession("s1", "m1", 0, DefaultSessionName, None);
    var before := Registry([s], map[], Some("s1"));
    assert WithoutSession([s], "s1") == [];
    assert SortNewestFirst([s]) == [s];
  }

  // ---------------------------------------------------------------------------
  // Answers and uploads

  /** The text the active document contributes: `sessionDocuments[id]?.text || ''`. */
  function ActivePdfText(reg: Registry): string {
    if reg.active.Some? && reg.active.value != [] && reg.active.value in reg.documents then reg.documents[reg.active.value].text else ""
  }

  /** The bot's reply in the chat page: the fixed error without a document, else the routed answer for the selected context. */
  function BotReply(documentText: string, question: string, classifier: AiService.Completion, generation: AiService.Completion): (r: string)
    ensures r != []
  {
    if documentText == [] then AnswerErrorText
    else
      var selected := PdfService.RelevantContext(documentText, [], question);
      AiService.GenerateAnswer(selected.context, selected.pages, question, classifier, generation)
  }

  /** The reply as the page computes it, with the selector method. */
  method AnswerFor(documentText: string, question: string, classifier: AiService.Completion, generation: AiService.Completion) returns (reply: string)
    ensures reply == BotReply(documentText, question, classifier, generation)
  {
    if documentText == [] {
      reply := AnswerErrorText;
    } else {
      var selected := PdfService.FindRelevantContext(documentText, [], question);
      PdfService.SelectorsAgree(documentText, [], question, selected);
      reply := AiService.GenerateAnswer(selected.context, selected.pages, question, classifier, generation);
    }
  }

  /** The chat page hands the selector no pages, so its replies never carry a page note. */
  lemma ChatRepliesCiteNoPages(documentText: string, question: string)
    ensures PdfService.RelevantContext(documentText, [], question).pages == []
  {
  }

  /** The outcome of the upload checks: the extracted text, or the message shown. */
  function UploadCheck(file: PdfService.FileInfo, extracted: Result<PdfService.Extraction, string>): (r: Result<string, string>)
    ensures r.Success? ==> 0 < file.size <= MaxFileSize && r.value != []
  {
    if file.size == 0 then Failure(EmptyFileMessage)
    else if file.size > MaxFileSize then Failure(FileTooLargeMessage)
    else match extracted
      case Failure(e) => Failure(e)
      case Success(x) => if x.fullText == [] then Failure(NoTextExtractedMessage) else Success(x.fullText)
  }

  /** The document cache after the checks of `handleFileUpload`: a file refused for its size never reaches the cache. */
  function UploadCache(file: PdfService.FileInfo, entries: map<string, PdfService.CacheEntry>, key: string, checkedAt: nat,
                       load: PdfService.LoadOutcome, loadedAt: nat): (after: map<string, PdfService.CacheEntry>)
    ensures file.size == 0 || file.size > MaxFileSize ==> after == entries
    ensures 0 < file.size <= MaxFileSize ==> after == PdfService.CacheAfterExtraction(file, entries, key, checkedAt, load, loadedAt)
  {
    if file.size == 0 || file.size > MaxFileSize then entries
    else PdfService.CacheAfterExtraction(file, entries, key, checkedAt, load, loadedAt)
  }

  /** The checks of `handleFileUpload`: the size first, then extraction through the document cache. */
  method CheckUpload(file: PdfService.FileInfo, cache: PdfService.PdfCache, key: string, checkedAt: nat,
                     load: PdfService.LoadOutcome, loadedAt: nat) returns (outcome: Result<string, string>)
    modifies cache
    ensures outcome == UploadCheck(file, PdfService.ExtractionOutcome(file, old(cache.entries), key, checkedAt, load))
    ensures cache.entries == UploadCache(file, old(cache.entries), key, checkedAt, load, loadedAt)
  {
    if file.size == 0 {
      return Failure(EmptyFileMessage);
    } else if file.size > MaxFileSize {
      return Failure(FileTooLargeMessage);
    }
    var result := cache.ExtractTextFromPDF(file, key, checkedAt, load, loadedAt);
    if result.Failure? {
      outcome := Failure(result.error);
    } else if result.value.fullText == [] {
      outcome := Failure(NoTextExtractedMessage);
    } else {
      outcome := Success(result.value.fullText);
    }
  }

  /** The message the error toast shows for an outcome, if any. */
  function UploadError(outcome: Result<string, string>): (shown: Option<string>)
    ensures shown.Some? <==> outcome.Failure?
    ensures shown.Some? ==> shown.value == outcome.error
  {
    if outcome.Failure? then Some(outcome.error) else None
  }

  /**
   * What an upload does to the registry and the kept files: on failure a
   * given target loses its document and nothing else changes; on success
   * the given target, or else a new session put first and made active,
   * receives the document and the file.
   */
  predicate UploadApplied(before: Registry, pdfsBefore: map<string, PdfService.FileInfo>,
                          after: Registry, pdfsAfter: map<string, PdfService.FileInfo>,
                          outcome: Result<string, string>, file: PdfService.FileInfo, sessionId: Option<string>,
                          newId: string, greetingId: string, now: nat)
  {
    var target := sessionId.Some? && sessionId.value != [];
    && (outcome.Failure? ==>
          && after.sessions == before.sessions && after.active == before.active
          && after.documents == (if target then before.documents - {sessionId.value} else before.documents)
          && pdfsAfter == (if target then pdfsBefore - {sessionId.value} else pdfsBefore))
    && (outcome.Success? && target ==>
          && after.sessions == before.sessions && after.active == before.active
          && after.documents == before.documents[sessionId.value := Document(outcome.value, file.name)]
          && pdfsAfter == pdfsBefore[sessionId.value := file])
    && (outcome.Success? && !target ==>
          && after.sessions == [GreetingSession(newId, greetingId, now, UploadName(file.name), Some(file.name))] + before.sessions
          && after.active == Some(newId)
          && after.documents == before.documents[newId := Document(outcome.value, file.name)]
          && pdfsAfter == pdfsBefore[newId := file])
  }

  /** Size checks come first: an empty or oversized file is refused whatever extraction would give. */
  lemma SizeCheckedFirst(file: PdfService.FileInfo, e1: Result<PdfService.Extraction, string>, e2: Result<PdfService.Extraction, string>)
    requires file.size == 0 || file.size > MaxFileSize
    ensures UploadCheck(file, e1) == UploadCheck(file, e2)
    ensures UploadCheck(file, e1) == Failure(if file.size == 0 then EmptyFileMessage else FileTooLargeMessage)
  {
  }

  // ---------------------------------------------------------------------------
  // The page

  class ChatPage {
    var sessions: seq<ChatSession>
    var activeSessionId: Option<string>
    var sessionDocuments: map<string, Document>
    /** The uploaded files by session id; kept in memory only. */
    var sessionPDFs: map<string, PdfService.FileInfo>
    /** Browser storage. */
    var stored: Snapshot

    function Current(): Registry
      reads this
    {
      Registry(sessions, sessionDocuments, activeSessionId)
    }

    /** Storage holds the current state. */
    predicate Persisted()
      reads this
    {
      stored == Save(Current())
    }

    /** Mounting the page: restore from storage, then save. */
    constructor Mount(snap: Snapshot)
      ensures Current() == Load(snap) && sessionPDFs == map[]
      ensures Persisted()
    {
      var restored: seq<ChatSession> := [];
      var documents: map<string, Document> := map[];
      var active: Option<string> := None;
      if snap.chatSessions.Present? {
        var saved := snap.chatSessions.value;
        restored := saved;
        if !snap.sessionDocuments.Corrupt? {
          if snap.sessionDocuments.Present? {
            documents := snap.sessionDocuments.value;
          }
          var last := snap.lastActiveSessionId;
          if last.Some? && last.value != [] && Listed(last.value, saved) {
            active := last;
          } else if |saved| > 0 {
            restored := SortNewestFirst(saved);
            active := Some(restored[0].id);
          }
        }
      }
      sessions := restored;
      sessionDocuments := documents;
      activeSessionId := active;
      sessionPDFs := map[];
      stored := Save(Registry(restored, documents, active));
    }

    /** `createNewSession` */
    method CreateNewSession(id: string, greetingId: string, now: nat)
      modifies this
      ensures sessions == [GreetingSession(id, greetingId, now, DefaultSessionName, None)] + old(sessions)
      ensures activeSessionId == Some(id)
      ensures sessionDocuments == old(sessionDocuments) && sessionPDFs == old(sessionPDFs)
      ensures Persisted()
    {
      var newSession := GreetingSession(id, greetingId, now, DefaultSessionName, None);
      sessions := [newSession] + sessions;
      activeSessionId := Some(id);
      stored := Save(Current());
    }

    /**
     * `handleFileUpload`: the size checks, then extraction through the
     * document cache, then the registry takes the outcome as `UploadApplied`
     * describes; the returned message is what the error toast shows.
     */
    method HandleFileUpload(file: PdfService.FileInfo, sessionId: Option<string>,
                            cache: PdfService.PdfCache, key: string, checkedAt: nat, load: PdfService.LoadOutcome, loadedAt: nat,
                            newId: string, greetingId: string, now: nat) returns (error: Option<string>)
      modifies this, cache
      ensures UploadApplied(old(Current()), old(sessionPDFs), Current(), sessionPDFs,
                            UploadCheck(file, PdfService.ExtractionOutcome(file, old(cache.entries), key, checkedAt, load)),
                            file, sessionId, newId, greetingId, now)
      ensures error == UploadError(UploadCheck(file, PdfService.ExtractionOutcome(file, old(cache.entries), key, checkedAt, load)))
      ensures cache.entries == UploadCache(file, old(cache.entries), key, checkedAt, load, loadedAt)
      ensures Persisted()
    {
      var outcome := CheckUpload(file, cache, key, checkedAt, load, loadedAt);
      error := ApplyUpload(outcome, file, sessionId, newId, greetingId, now);
    }

    /** The second half of `handleFileUpload`: the registry takes the outcome of the checks. */
    method ApplyUpload(outcome: Result<string, string>, file: PdfService.FileInfo, sessionId: Option<string>,
                       newId: string, greetingId: string, now: nat) returns (error: Option<string>)
      modifies this
      ensures UploadApplied(old(Current()), old(sessionPDFs), Current(), sessionPDFs, outcome, file, sessionId, newId, greetingId, now)
      ensures error == UploadError(outcome)
      ensures Persisted()
    {
      if outcome.Success? {
        var targetSessionId: string;
        if sessionId.Some? && sessionId.value != [] {
          targetSessionId := sessionId.value;
        } else {
          var newSession := GreetingSession(newId, greetingId, now, UploadName(file.name), Some(file.name));
          sessions := [newSession] + sessions;
          activeSessionId := Some(newId);
          targetSessionId := newId;
        }
        sessionDocuments := sessionDocuments[targetSessionId := Document(outcome.value, file.name)];
        sessionPDFs := sessionPDFs[targetSessionId := file];
        error := None;
      } else {
        if sessionId.Some? && sessionId.value != [] {
          sessionDocuments := sessionDocuments - {sessionId.value};
          sessionPDFs := sessionPDFs - {sessionId.value};
        }
        error := Some(outcome.error);
      }
      stored := Save(Current());
    }

    /**
     * `handleSendMessage`: without an active session a session is created and
     * the question dropped; otherwise the question and then exactly one reply
     * are appended to the active session.
     */
    method HandleSendMessage(question: string, newId: string, greetingId: string, now: nat,
                             userMessageId: string, askedAt: nat,
                             classifier: AiService.Completion, generation: AiService.Completion,
                             botMessageId: string, answeredAt: nat)
      modifies this
      ensures old(activeSessionId).None? || old(activeSessionId).value == [] ==>
        && sessions == [GreetingSession(newId, greetingId, now, DefaultSessionName, None)] + old(sessions)
        && activeSessionId == Some(newId)
      ensures old(activeSessionId).Some? && old(activeSessionId).value != [] ==>
        var id := old(activeSessionId).value;
        var reply := BotReply(ActivePdfText(old(Current())), question, classifier, generation);
        && sessions == AppendTo(AppendTo(old(sessions), id, ChatMessage(userMessageId, question, User, askedAt)), id,
                                ChatMessage(botMessageId, reply, Bot, answeredAt))
        && activeSessionId == old(activeSessionId)
      ensures sessionDocuments == old(sessionDocuments) && sessionPDFs == old(sessionPDFs)
      ensures Persisted()
    {
      if activeSessionId.None? || activeSessionId.value == [] {
        CreateNewSession(newId, greetingId, now);
        return;
      }
      var id := activeSessionId.value;
      var userMessage := ChatMessage(userMessageId, question, User, askedAt);
      sessions := AppendTo(sessions, id, userMessage);
      var documentText := if id in sessionDocuments then sessionDocuments[id].text else "";
      var reply := AnswerFor(documentText, question, classifier, generation);
      var botMessage := ChatMessage(botMessageId, reply, Bot, answeredAt);
      sessions := AppendTo(sessions, id, botMessage);
      stored := Save(Current());
    }

    /** `deleteSession` */
    method DeleteSession(sessionId: string)
      modifies this
      ensures Current() == AfterDelete(old(Current()), sessionId)
      ensures sessionPDFs == old(sessionPDFs) - {sessionId}
      ensures Persisted()
    {
      var remaining := WithoutSession(sessions, sessionId);
      var wasActive := activeSessionId == Some(sessionId);
      sessions := remaining;
      sessionDocuments := sessionDocuments - {sessionId};
      sessionPDFs := sessionPDFs - {sessionId};
      if wasActive {
        if |remaining| > 0 {
          var mostRecent := SortNewestFirst(remaining)[0];
          activeSessionId := Some(mostRecent.id);
        } else {
          activeSessionId := None;
        }
      }
      stored := Save(Current());
    }

    /** `deleteAllSessions` */
    method DeleteAllSessions()
      modifies this
      ensures sessions == [] && sessionDocuments == map[] && sessionPDFs == map[] && activeSessionId == None
      ensures stored == Snapshot(Present([]), Present(map[]), None)
    {
      sessions := [];
      sessionDocuments := map[];
      sessionPDFs := map[];
      activeSessionId := None;
      stored := Save(Current());
    }

    /** `selectSession`: the id is taken as given. */
    method SelectSession(sessionId: string)
      modifies this
      ensures activeSessionId == Some(sessionId)
      ensures sessions == old(sessions) && sessionDocuments == old(sessionDocuments) && sessionPDFs == old(sessionPDFs)
      ensures Persisted()
    {
      activeSessionId := Some(sessionId);
      stored := Save(Current());
    }
  }
}
