# AskNotes.AI — a verified model of the document chat core

AskNotes.AI lets a user upload a PDF and ask questions about it. This
project models the logic behind that in Dafny and proves properties of it:

- **Extraction and context selection.** The text of a document is assembled
  page by page. The paragraphs relevant to a question are selected, and the
  pages that the selection came from are credited in ascending order.
  Loader errors become fixed messages, and loaded documents are cached for
  one hour.
- **Answer routing.** A classifier label picks one of the fixed
  conversational replies, the "rephrase" reply, the apology, or a composed
  topic reply. The topic reply holds the answer, a page note and two search
  links.
- **The chat page.** Sessions are created, documents uploaded, questions
  answered, and sessions deleted and selected. The page also restores and
  saves itself through browser storage.
- **The sidebar.** It names sessions, caps session creation and toggles the
  per-session uploader.
- **The chat panel.** It has the submit gate, the suggested questions and
  the transcript export.
- **The document viewer.** It has a navigation state machine.
- **The keyboard shortcut table.**

Two consequences of the code are worth stating:

- The selector looks for the whole lower-cased question as one substring.
  Asking "What is the capital?" of "Paris is the capital of France.\n\nIt
  has many museums." therefore matches no paragraph, and the context falls
  back to the first 3000 characters (`PdfService.NoMatchFallsBack`).
- The chat page always hands the selector an empty page list, so a chat
  reply never reports pages (`Chat.ChatRepliesCiteNoPages`).

Files (one module per source file, plus two shared ones):

| file | module | models |
|---|---|---|
| `wrappers.dfy` | `Wrappers` | `Option` and `Result` |
| `text.dfy` | `Text` | `trim`, ASCII `toLowerCase`, `includes`, `slice`, `join`, decimal numbers |
| `pdf_service.dfy` | `PdfService` | `src/services/pdfService.ts` |
| `ai_service.dfy` | `AiService` | `src/services/aiService.ts` |
| `session_manager.dfy` | `SessionManager` | `src/components/ChatSessionManager.tsx` |
| `chat.dfy` | `Chat` | `src/pages/Chat.tsx` |
| `chat_interface.dfy` | `ChatInterface` | `src/components/ChatInterface.tsx` |
| `pdf_viewer.dfy` | `PdfViewer` | `src/components/PDFViewer.tsx` |
| `keyboard_navigation.dfy` | `KeyboardNavigation` | `src/hooks/useKeyboardNavigation.ts` |

How the outside world appears in the model:

- The PDF reader is a sequence of per-page read results (`PageRead`), and
  loading a file is a `LoadOutcome`.
- The file hash is a string key. Clock readings are `nat` milliseconds, and
  fresh identifiers are string parameters.
- Each model request is an `AiService.Completion`: it either threw, or
  returned a content that may be absent.
- Browser storage is a `Chat.Snapshot` value.

Where the source mutates state, the model uses classes:

- the document cache (`PdfService.PdfCache`);
- the chat page (`Chat.ChatPage`);
- the sidebar (`SessionManager.SidebarState`);
- the chat panel (`ChatInterface.ChatPanel`);
- the viewer (`PdfViewer.Viewer`).

Loops that the source has become methods with invariants (`PdfService.CreditPages`,
`PdfService.AssemblePages`). Each is proved against a function that states
its result.

## Model

| member | source | states |
|---|---|---|
| PdfService.SplitBlankLines | src/services/pdfService.ts:144 | splitting at runs of two or more line feeds yields at least one piece, and no piece contains a blank line |
| PdfService.CollapseRuns | src/services/pdfService.ts:144 | collapsing every run of line feeds to at most two never lengthens the text |
| PdfService.CollapseKeepsPrefix | src/services/pdfService.ts:144 | a prefix without a blank line is left as it is by the collapse |
| PdfService.CollapseRun | src/services/pdfService.ts:144 | a whole run of two or more line feeds collapses to one blank line |
| PdfService.CollapseAtFirstRun | src/services/pdfService.ts:144 | the collapse keeps the text up to the first run, writes one blank line for the run, and continues after it |
| PdfService.SplitJoinCollapses | src/services/pdfService.ts:144 | for every text, joining the split pieces with `"\n\n"` gives the text with each run of line feeds collapsed to one blank line |
| PdfService.SplitCutsWholeRuns | src/services/pdfService.ts:144 | the split consumes whole runs: no piece after the first starts with a line feed, and no piece before the last ends with one |
| PdfService.CollapseWithoutTriple | src/services/pdfService.ts:144 | a text with no three line feeds in a row is unchanged by the collapse |
| PdfService.SplitWithoutBlankLine | src/services/pdfService.ts:144 | a text without a blank line is one piece |
| PdfService.SplitJoinRoundTrip | src/services/pdfService.ts:144 | when every separator is exactly one blank line, joining the pieces with `"\n\n"` gives the text back |
| PdfService.NonBlank | src/services/pdfService.ts:144 | the paragraphs kept are exactly the pieces not made of white space only, which `TrimEmptyIffAllSpace` shows are those with a non-empty trim; none is added |
| PdfService.NonBlankDistributes | src/services/pdfService.ts:144 | the filter distributes over concatenation, and keeps a single piece exactly when it is not all white space, so order is kept |
| PdfService.Matching | src/services/pdfService.ts:146 | a paragraph is kept exactly when its lower-cased text contains the search term |
| PdfService.MatchingDistributes | src/services/pdfService.ts:146 | the filter distributes over concatenation, and keeps a single paragraph exactly when it matches, so order is kept |
| PdfService.ContextText | src/services/pdfService.ts:147 | every matching paragraph appears in the context; with no match the context is the first min(3000, length) characters |
| PdfService.MatchingEmptyTerm | src/services/pdfService.ts:143-146 | the empty search term keeps every paragraph |
| PdfService.BlankQuestionMatchesAll | src/services/pdfService.ts:143-146 | a question of white space only matches every paragraph |
| PdfService.NoMatchFallsBack | src/services/pdfService.ts:147-156 | with no match, the context is the first min(3000, length) characters and no page is credited |
| PdfService.CreditPages | src/services/pdfService.ts:149-156 | the nested loop credits each page number at most once, and exactly the pages containing the first 100 characters of some match |
| PdfService.SortAscending | src/services/pdfService.ts:160 | the numeric sort returns a permutation of its input in ascending order |
| PdfService.SortDistinct | src/services/pdfService.ts:152-160 | sorting numbers without repeats gives a strictly ascending sequence of the same numbers |
| PdfService.FindRelevantContext | src/services/pdfService.ts:136-162 | a blank document gives `("", [])`; otherwise the context is the joined matches or the fallback; pages are strictly ascending and are exactly the credited pages |
| PdfService.RelevantContext | src/services/pdfService.ts:136-162 | a blank document gives `("", [])`; the pages are strictly ascending, and a page is reported exactly when the document is not blank and the page holds the 100-character prefix of some match |
| PdfService.AttributedPages | src/services/pdfService.ts:149-160 | the credited pages, strictly ascending, are exactly those that hold the 100-character prefix of some match |
| PdfService.SelectorsAgree | src/services/pdfService.ts:136-162 | any result meeting the method's contract equals the function `RelevantContext` |
| PdfService.StrictlyAscendingUnique | src/services/pdfService.ts:160 | two strictly ascending sequences with the same elements are equal |
| PdfService.PageText | src/services/pdfService.ts:102-105 | a page's text, items joined by spaces and trimmed, has nothing left to trim |
| PdfService.PageContents | src/services/pdfService.ts:89-116 | kept pages have non-empty trimmed texts, numbers between 1 and the page count, strictly ascending; a page is kept exactly when its read gave that non-empty text |
| PdfService.KeepPageKeeps | src/services/pdfService.ts:107-110 | keeping one more page adds exactly that page, when its text is not empty, to the pages already kept |
| PdfService.KeepPageMembers | src/services/pdfService.ts:107-110 | after one more page, the kept pages are the earlier ones plus the new page when its text is not empty |
| PdfService.KeepPage | src/services/pdfService.ts:107-110 | keeping one more page preserves well-formedness |
| PdfService.AssemblePages | src/services/pdfService.ts:85-116 | the page loop produces `PageContents` and, as full text, each kept page's text followed by a blank line |
| PdfService.BlocksBlankIffNoPages | src/services/pdfService.ts:119-121 | the assembled text is blank exactly when no page had text |
| PdfService.KeepNonBlankKeepsAll | src/services/pdfService.ts:125 | on assembled pages the final filter removes nothing |
| PdfService.ExtractionWellFormed | src/services/pdfService.ts:85-126 | a successful extraction has well-formed, non-empty page contents and a full text equal to the trimmed concatenation |
| PdfService.NoTextIffNoPages | src/services/pdfService.ts:119-121 | a loaded document fails with the "no readable text" message exactly when every page read gave no text |
| PdfService.NoPagesIffNoText | src/services/pdfService.ts:89-116 | no page is kept exactly when every page read gave no text |
| PdfService.ExtractFrom | src/services/pdfService.ts:77-133 | a failed load is rethrown as its message; a success has a non-empty full text with nothing left to trim |
| PdfService.ExtractionOutcome | src/services/pdfService.ts:68-134 | a success means the file was a PDF and the full text is non-empty and trimmed; a PDF whose cached load fails gives that failure |
| PdfService.NonPdfRefused | src/services/pdfService.ts:73-75 | a file not typed exactly `application/pdf` is refused whatever the cache and loader hold |
| PdfService.LoadErrorMessage | src/services/pdfService.ts:55-65 | the rethrown message is one of three, chosen by "password" first, then "corrupt", only for `Error` objects |
| PdfService.PasswordTakesPrecedence | src/services/pdfService.ts:58-61 | a message mentioning both password and corruption is reported as a password problem |
| PdfService.CacheAfter | src/services/pdfService.ts:23-34 | other keys keep their entries; an existing key stays; after a successful lookup the key holds the document served |
| PdfService.LoadedDocumentServedForAnHour | src/services/pdfService.ts:23-34 | a document just loaded is served for exactly the next hour, after which the key is loaded again |
| PdfService.CacheAfterExtraction | src/services/pdfService.ts:68-79 | a non-PDF file leaves the cache unchanged; a PDF updates it as `CacheAfter` says |
| PdfService.PdfCache.constructor | src/services/pdfService.ts:13 | the cache starts empty |
| PdfService.PdfCache.GetCachedPDF | src/services/pdfService.ts:23-34 | a fresh entry (younger than one hour) is served; otherwise the load's outcome is returned; the cache becomes `CacheAfter` of the old one |
| PdfService.PdfCache.ExtractTextFromPDF | src/services/pdfService.ts:68-134 | the result is `ExtractionOutcome` of the cache before the call, and the cache becomes `CacheAfterExtraction` of the old one |
| PdfService.AnswerQuestion | src/services/pdfService.ts:164-176 | a blank document gets the fixed reply; otherwise the selected context and credited pages go to the answer routing |
| AiService.NormaliseLabel | src/services/aiService.ts:38 | a label exists exactly when the completion has content; it is no longer than the content and has no upper-case letter |
| AiService.ToneOf | src/services/aiService.ts:38 | a label names a tone exactly when it is that tone's own name |
| AiService.LabelIgnoresPaddingAndCase | src/services/aiService.ts:38 | white space around the label and letter case do not change it |
| AiService.PercentBytes | src/services/aiService.ts:43 | each byte becomes three characters, all of them unreserved or `%` |
| AiService.EncodeURIComponent | src/services/aiService.ts:43 | the encoded text holds only unreserved characters and `%` |
| AiService.DecodeEncode | src/services/aiService.ts:43 | `decodeURIComponent(encodeURIComponent(s)) == s` for every string |
| AiService.FindExternalResources | src/services/aiService.ts:42-49 | both links start with their fixed prefixes, carry the same encoded suffix, and that suffix decodes to the question |
| AiService.PagesNote | src/services/aiService.ts:107-109 | the note is empty exactly when there are no pages |
| AiService.ParseJoinNumbers | src/services/aiService.ts:108 | the page numbers joined by `", "` read back as the same list |
| AiService.PagesNoteReadsBack | src/services/aiService.ts:107-109 | the note says "page" for one page and "pages" for more, and lists exactly the given numbers |
| AiService.AnswerText | src/services/aiService.ts:105 | a missing or empty completion is replaced by the fixed text; any other is kept |
| AiService.ResourcesBlock | src/services/aiService.ts:113-117 | the resources block contains both links |
| AiService.TopicReply | src/services/aiService.ts:119-129 | the topic reply contains the answer, the page note and both links |
| AiService.Respond | src/services/aiService.ts:57-136 | a canned reply is never given for the topic label, and a composed reply always has a non-empty answer |
| AiService.ReplyText | src/services/aiService.ts:58-135 | every reply text is non-empty; a composed reply contains the answer, the page note and both links |
| AiService.GenerateAnswer | src/services/aiService.ts:52-137 | whatever the two requests return, the answer is never empty |
| AiService.NoContentBeforeClassification | src/services/aiService.ts:58-60 | blank context gives the no-content reply, whatever the classifier and the generation return |
| AiService.ConversationalToneIsCanned | src/services/aiService.ts:65-79 | greeting, goodbye, thanks and casual each give their canned reply, whatever the generation would return |
| AiService.UnknownLabelAsksToRephrase | src/services/aiService.ts:132 | a missing label, or any label but the five known ones, gives the rephrase reply |
| AiService.FailureBecomesApology | src/services/aiService.ts:133-136 | a failing classifier call, or a failing generation after a topic label, gives the fixed apology |
| AiService.TopicReplyCarriesParts | src/services/aiService.ts:81-129 | a topic label with a successful generation gives the composed reply, and the answer text holds the answer (or its stand-in), the page note and both links |
| SessionManager.FirstUserText | src/components/ChatSessionManager.tsx:109 | the result is the text of the first user message, skipping bot messages, or nothing when there is none |
| SessionManager.SessionName | src/components/ChatSessionManager.tsx:103-119 | the listed name is never empty |
| SessionManager.OwnNameWins | src/components/ChatSessionManager.tsx:104-106 | a non-empty name other than "New Chat" is used as it is |
| SessionManager.NamedAfterFirstQuestion | src/components/ChatSessionManager.tsx:109-115 | otherwise the first user question is used, cut to 20 characters plus "..." when longer |
| SessionManager.BotMessagesIgnored | src/components/ChatSessionManager.tsx:109 | bot messages before the first question do not affect the name |
| SessionManager.EmptyFirstQuestionFallsBack | src/components/ChatSessionManager.tsx:109-118 | an empty first question falls back to the document name, then to the date |
| SessionManager.Toggled | src/components/ChatSessionManager.tsx:87-92 | only the given session's flag is negated, an absent flag counting as closed; every other entry is unchanged |
| SessionManager.ToggleTwice | src/components/ChatSessionManager.tsx:87-92 | toggling twice restores the flag and touches nothing else |
| SessionManager.SidebarState.constructor | src/components/ChatSessionManager.tsx:72-74 | no uploader is open and no error is shown |
| SessionManager.SidebarState.ToggleSessionUploader | src/components/ChatSessionManager.tsx:87-92 | the uploader map becomes `Toggled` of the old one |
| SessionManager.SidebarState.HandleFileUploadForSession | src/components/ChatSessionManager.tsx:122-139 | after a resolved upload to a given session its flag is false; otherwise the flags are unchanged |
| SessionManager.SidebarState.HandleNewSession | src/components/ChatSessionManager.tsx:141-148 | a session is created exactly when fewer than 20 exist; otherwise the cap error is shown |
| SessionManager.SidebarState.ClearSessionError | src/components/ChatSessionManager.tsx:144 | the error is cleared and nothing else changes |
| Chat.UploadName | src/pages/Chat.tsx:155 | the new session's name is non-empty: the file name up to its first dot, or "New Chat" |
| Chat.MostRecent | src/pages/Chat.tsx:69-71 | the chosen session has the greatest creation time, and no session before it has that time |
| Chat.SortNewestFirst | src/pages/Chat.tsx:69-71 | the sort returns a permutation of the sessions, newest first |
| Chat.SortLeadsWithMostRecent | src/pages/Chat.tsx:69-72 | the stable sort leads with the session `MostRecent` picks |
| Chat.WithoutSession | src/pages/Chat.tsx:295 | exactly the sessions with another id remain, and none is added |
| Chat.WithoutSessionDistributes | src/pages/Chat.tsx:295 | the filter distributes over concatenation, and keeps a single session exactly when its id differs, so order is kept |
| Chat.AfterDelete | src/pages/Chat.tsx:294-320 | the sessions left are exactly those with another id, the deleted id's document goes, and deleting an inactive session keeps the active one |
| Chat.AppendTo | src/pages/Chat.tsx:238-242 | appending keeps the session list's length and ids |
| Chat.ExchangeAppendsTwo | src/pages/Chat.tsx:238-287 | a question and its reply add exactly those two messages to the active session and change no other |
| Chat.DeleteReelectsMostRecent | src/pages/Chat.tsx:307-319 | deleting the active session makes the latest-created remaining session active, or none when no other remains |
| Chat.DeleteKeepsActiveListed | src/pages/Chat.tsx:294-320 | deleting keeps the active pointer on a listed session |
| Chat.Load | src/pages/Chat.tsx:37-82 | the active session is always listed; stored sessions are kept (as a multiset), and without them the page starts empty |
| Chat.Restore | src/pages/Chat.tsx:63-73 | sessions and documents are kept; there is an active session exactly when there are sessions; a listed stored id wins, else the most recent session |
| Chat.SaveAsWritten | src/pages/Chat.tsx:85-103 | with every value non-empty it writes what the corrected save writes; an empty state writes nothing |
| Chat.Save | src/pages/Chat.tsx:85-103 | sessions and documents are always written; the active id is written exactly when there is a non-empty one |
| Chat.ReloadRestores | src/pages/Chat.tsx:37-103 | with the corrected save, reloading gives back the same sessions, documents and active session |
| Chat.DeletedLastSessionReappears | src/pages/Chat.tsx:85-96 | with the save effects as written, deleting the last session and reloading brings it back |
| Chat.AnswerFor | src/pages/Chat.tsx:245-265 | the reply is the fixed error text without a document, else the routed answer for the selector's result |
| Chat.BotReply | src/pages/Chat.tsx:245-287 | the bot's reply is never empty |
| Chat.ChatRepliesCiteNoPages | src/pages/Chat.tsx:250 | the chat page's selector call never reports pages |
| Chat.UploadCheck | src/pages/Chat.tsx:132-145 | an accepted upload has a size between 1 byte and 50 MB and a non-empty text |
| Chat.UploadCache | src/pages/Chat.tsx:132-145 | an empty or oversized file leaves the cache unchanged; any other goes through `CacheAfterExtraction` |
| Chat.CheckUpload | src/pages/Chat.tsx:132-145 | the outcome is `UploadCheck` of what extraction through the cache gives, and the cache becomes `UploadCache` of the old one |
| Chat.UploadError | src/pages/Chat.tsx:187-200 | a message is shown exactly on failure, and it is the failure's message |
| Chat.SizeCheckedFirst | src/pages/Chat.tsx:132-138 | an empty or oversized file is refused with its message, whatever extraction would give |
| Chat.ChatPage.Mount | src/pages/Chat.tsx:37-82 | the mounted state is `Load` of the snapshot, and storage holds it |
| Chat.ChatPage.CreateNewSession | src/pages/Chat.tsx:106-121 | one greeting-only "New Chat" session is prepended and made active; nothing else changes |
| Chat.ChatPage.HandleFileUpload | src/pages/Chat.tsx:124-218 | the checks run before anything changes; the registry then changes as `UploadApplied` says for their outcome, storage holds the new state, and the cache becomes `UploadCache` of the old one |
| Chat.ChatPage.ApplyUpload | src/pages/Chat.tsx:147-214 | on failure a given session loses its document and file and nothing else changes; on success the given session, or else a new active session named after the file, receives them |
| Chat.ChatPage.HandleSendMessage | src/pages/Chat.tsx:221-291 | with no active session, a session is created and the question dropped; otherwise the question and exactly one reply are appended to the active session |
| Chat.ChatPage.DeleteSession | src/pages/Chat.tsx:294-326 | the new state is `AfterDelete` of the old one; the file entry goes too |
| Chat.ChatPage.DeleteAllSessions | src/pages/Chat.tsx:329-342 | everything is emptied and the active pointer cleared |
| Chat.ChatPage.SelectSession | src/pages/Chat.tsx:345-348 | the given id becomes active and nothing else changes |
| ChatInterface.SuggestedQuestions | src/components/ChatInterface.tsx:65-78 | five questions exactly when there is document text, none otherwise; each fits its button |
| ChatInterface.QuestionLabel | src/components/ChatInterface.tsx:351 | a question over 50 characters is shown as its first 50 and "..." |
| ChatInterface.TranscriptLine | src/components/ChatInterface.tsx:126 | a user message is written "You: text\n", a bot message "AskNoteBot: text\n" |
| ChatInterface.TranscriptLines | src/components/ChatInterface.tsx:125-126 | one entry per message, in order |
| ChatInterface.TranscriptSnoc | src/components/ChatInterface.tsx:125-127 | a later message adds a newline and its entry at the end |
| ChatInterface.TranscriptShortChats | src/components/ChatInterface.tsx:125-127 | an empty chat gives the empty text; a single message gives its entry alone |
| ChatInterface.Transcript | src/components/ChatInterface.tsx:125-127 | every message appears in the transcript under its speaker |
| ChatInterface.ChatPanel.constructor | src/components/ChatInterface.tsx:29-36 | the panel starts with an empty box, the saved pane state and the messages handed in |
| ChatInterface.ChatPanel.SetInput | src/components/ChatInterface.tsx:282 | typing replaces the box's text and nothing else |
| ChatInterface.ChatPanel.SyncMessages | src/components/ChatInterface.tsx:40-42 | new messages from the page replace the panel's copy and nothing else |
| ChatInterface.ChatPanel.ClearChat | src/components/ChatInterface.tsx:184 | clearing empties the panel's messages and nothing else |
| ChatInterface.ChatPanel.TogglePDF | src/components/ChatInterface.tsx:152 | the document pane flips and nothing else changes |
| ChatInterface.ChatPanel.ClosePDF | src/components/ChatInterface.tsx:310 | the document pane closes and nothing else changes |
| ChatInterface.ChatPanel.HandleSubmit | src/components/ChatInterface.tsx:80-107 | the trimmed question is sent and the box cleared exactly when it is non-blank, nothing is loading and there is a document; only a missing document raises the toast |
| ChatInterface.ChatPanel.HandleSuggestedQuestion | src/components/ChatInterface.tsx:109-122 | the question is sent as it is exactly when nothing is loading |
| ChatInterface.ChatPanel.FileChanged | src/components/ChatInterface.tsx:50-54 | losing the file closes the document pane |
| PdfViewer.ZoomedIn | src/components/PDFViewer.tsx:55-57 | in quarters, the new scale is `min(scale + 0.25, 3)` |
| PdfViewer.ZoomedOut | src/components/PDFViewer.tsx:59-61 | in quarters, the new scale is `max(scale - 0.25, 0.5)` |
| PdfViewer.ZoomOutUndoesZoomIn | src/components/PDFViewer.tsx:55-61 | zooming in and then out restores the zoom exactly when it was below the maximum |
| PdfViewer.Rotated | src/components/PDFViewer.tsx:63-65 | rotation stays below 360 and a multiple of 90 |
| PdfViewer.FourTurnsRestore | src/components/PDFViewer.tsx:63-65 | four rotations restore the original rotation |
| PdfViewer.Viewer.constructor | src/components/PDFViewer.tsx:23-26 | the viewer starts at page 1, scale 1.0, rotation 0 and no pages |
| PdfViewer.Viewer.OnDocumentLoadSuccess | src/components/PDFViewer.tsx:39-41 | the page count is replaced and the page is not clamped |
| PdfViewer.Viewer.PreviousPage | src/components/PDFViewer.tsx:43-47 | the page goes down only from above 1, so it never drops below 1 |
| PdfViewer.Viewer.NextPage | src/components/PDFViewer.tsx:49-53 | the page goes up only below the page count, so nothing moves before loading |
| PdfViewer.Viewer.ZoomIn | src/components/PDFViewer.tsx:55-57 | the zoom becomes `ZoomedIn` and stays within [0.5, 3] |
| PdfViewer.Viewer.ZoomOut | src/components/PDFViewer.tsx:59-61 | the zoom becomes `ZoomedOut` and stays within [0.5, 3] |
| PdfViewer.Viewer.Rotate | src/components/PDFViewer.tsx:63-65 | the rotation becomes `Rotated` and stays one of 0, 90, 180, 270 |
| KeyboardNavigation.FireIf | src/hooks/useKeyboardNavigation.ts:40-57 | a callback fires exactly when its test holds and it was supplied |
| KeyboardNavigation.HandleKeyDown | src/hooks/useKeyboardNavigation.ts:26-57 | the default is suppressed exactly for reserved keys; at most one callback fires; a callback fires exactly on its key, with ctrl when it needs it, and only if supplied |
| KeyboardNavigation.BindingsReservedAndDistinct | src/hooks/useKeyboardNavigation.ts:26-57 | every bound key has its default suppressed, and no two callbacks share a key |
| KeyboardNavigation.SuppressedWithoutAction | src/hooks/useKeyboardNavigation.ts:26-54 | d, f and p without ctrl are suppressed and fire nothing |
| KeyboardNavigation.OtherKeysIgnored | src/hooks/useKeyboardNavigation.ts:26-57 | any other key is neither suppressed nor acted on |

## Findings

| source | as written | input that shows it | evidently intended | confidence | as-written member | corrected member |
|---|---|---|---|---|---|---|
| src/pages/Chat.tsx:85-96 | the save effects write the session list and the document map only while they are non-empty | one active session "s1"; delete it; reload the page | storage holds the emptied list, so a deleted session stays deleted | not executed | Chat.DeletedLastSessionReappears | Chat.ReloadRestores |

On the as-written side, `Chat.SaveAsWritten` models the conditional writes.
`Chat.DeletedLastSessionReappears` shows that after the last session is
deleted, the next `Load` brings it back. On the corrected side, `Chat.Save`
writes every key, and `Chat.ReloadRestores` proves that loading the saved
state gives it back. The class `Chat.ChatPage` uses the corrected save.

## Left out

- The PDF reader (PDF.js): loading, reading pages and rendering. Reading a page is a `PageRead` value and loading a `LoadOutcome`, with the loader's result as a parameter.
- The SHA-256 file hash, `Date.now`, `new Date()` and `uuidv4`. They are parameters: a string key, `nat` milliseconds and string identifiers.
- The HTTP calls to the model service and the prompts sent. Their results are `AiService.Completion` parameters.
- `findExternalResources`: the encoding is modelled on code points. The UTF-16 lone-surrogate case, where `encodeURIComponent` throws, cannot occur, because a Dafny `char` is a Unicode scalar value.
- `toLowerCase` is modelled on ASCII letters only, and string lengths count code points rather than UTF-16 units.
- Browser storage and JSON. A `Snapshot` holds the decoded values, and unreadable JSON is `Corrupt`. Dates are stored as milliseconds, so an unparsable date ("Invalid Date") is not modelled.
- The `lastActivePDF` and `showPDF` storage writes. The saved `showPDF` value is a constructor parameter of `ChatInterface.ChatPanel`.
- React's batching and the order of effects. Each handler is modelled as one atomic step that ends with the corrected save. Concurrent handlers interleaving across `await` are not modelled.
- Toasts, console logging, the three-second timer that clears the sidebar error, scrolling, rendering, markdown and the file download's Blob and anchor plumbing.
- `formatDate`, which is locale-dependent: `SessionManager.SessionName` takes the rendered date as a parameter.
- `studyMaterial` and `pageReference`, which no modelled operation reads.
- Null-file checks (`!file`, `!result`), which the model's types rule out.
- The `isLoading` flag of the chat page. Its value is a parameter of the panel's handlers.
- The catch branch of `answerQuestion` (src/services/pdfService.ts:177-180). Neither the selector nor the answer routing throws, so it cannot be reached.
- The catch branch of `handleFileUploadForSession`. The chat page's upload handler catches everything itself, so in the application the uploader flag is reset even after a failed upload. `SessionManager.SidebarState.HandleFileUploadForSession` keeps a rejection parameter for that branch.
- The chat page's catch path (src/pages/Chat.tsx:266-287) is reached only when there is no document, because the answer routing never throws. `Chat.BotReply` models it as that case.
- Chat.ChatPage.CreateNewSession: both timestamps of a new session take one clock reading. The source reads the clock twice, and the readings may differ by a millisecond.
- Chat.ChatPage.DeleteAllSessions: storage is stated as the corrected save of the empty state. As written, the source removes the three keys. Both load as the empty registry.
- The session cap applies only to the sidebar's "New Chat" button. Uploads create sessions unchecked, so the number of sessions is not an invariant of the model.
- DocumentUploader, Navbar and the build configuration, which hold no logic beyond the file-type rule already modelled.
