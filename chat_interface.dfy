/**
 * The chat panel: the question box and its submit gate, the suggested
 * questions, the document pane toggle and the plain-text transcript export.
 */
module ChatInterface {
  import opened Wrappers
  import opened Text
  import opened SessionManager

  /** The questions offered once a document is loaded, in display order. */
  const SuggestedList: seq<string> := [
    "What is this document about?",
    "Can you summarize the main points?",
    "What are the main arguments presented?",
    "Are there any important dates or events mentioned?",
    "What are the conclusions or recommendations?"
  ]

  /** How much of a suggested question its button shows. */
  const LabelLength := 50

  /** The suggestions shown for the current document text. */
  function SuggestedQuestions(pdfText: string): (qs: seq<string>)
    ensures qs == [] <==> pdfText == []
    ensures pdfText != [] ==> |qs| == 5
    ensures forall i :: 0 <= i < |qs| ==> 0 < |qs[i]| <= LabelLength && qs[i][|qs[i]| - 1] == '?'
  {
    if pdfText != [] then SuggestedList else []
  }

  /** The text on a suggestion's button. */
  function QuestionLabel(question: string): (shown: string)
    ensures |question| <= LabelLength ==> shown == question
    ensures |question| > LabelLength ==> |shown| == LabelLength + 3 && shown[..LabelLength] == question[..LabelLength] && shown[LabelLength..] == "..."
  {
    Truncate(question, LabelLength)
  }

  /** One transcript entry: the speaker, a colon, the text and a newline. */
  function TranscriptLine(m: ChatMessage): (line: string)
    ensures m.sender == User ==> line == "You: " + m.text + "\n"
    ensures m.sender == Bot ==> line == "AskNoteBot: " + m.text + "\n"
  {
    (if m.sender == User then "You" else "AskNoteBot") + ": " + m.text + "\n"
  }

  function TranscriptLines(messages: seq<ChatMessage>): (lines: seq<string>)
    ensures |lines| == |messages|
    ensures forall i :: 0 <= i < |messages| ==> lines[i] == TranscriptLine(messages[i])
  {
    seq(|messages|, i requires 0 <= i < |messages| => TranscriptLine(messages[i]))
  }

  /** The downloaded chat history: one entry per message, in order, separated by blank lines. */
  function Transcript(messages: seq<ChatMessage>): (t: string)
    ensures forall i :: 0 <= i < |messages| ==> Contains(t, TranscriptLine(messages[i]))
  {
    JoinContainsAll(TranscriptLines(messages), "\n");
    Join(TranscriptLines(messages), "\n")
  }

  /** A later message adds a newline and its entry at the end; nothing earlier changes. */
  lemma TranscriptSnoc(messages: seq<ChatMessage>, m: ChatMessage)
    requires messages != []
    ensures Transcript(messages + [m]) == Transcript(messages) + "\n" + TranscriptLine(m)
  {
    assert TranscriptLines(messages + [m]) == TranscriptLines(messages) + [TranscriptLine(m)];
    JoinSnoc(TranscriptLines(messages), TranscriptLine(m), "\n");
  }

  /** A single message downloads as its entry alone; an empty chat as the empty text. */
  lemma TranscriptShortChats(m: ChatMessage)
    ensures Transcript([]) == ""
    ensures Transcript([m]) == TranscriptLine(m)
  {
    assert TranscriptLines([m]) == [TranscriptLine(m)];
  }

  /** The panel's own state. */
  class ChatPanel {
    var inputValue: string
    /** Whether the document pane is open. */
    var showPDF: bool
    var messages: seq<ChatMessage>

    /** Mounting: an empty box, the pane as last saved, the messages handed in. */
    constructor (initialMessages: seq<ChatMessage>, savedShowPDF: bool)
      ensures inputValue == "" && showPDF == savedShowPDF && messages == initialMessages
    {
      inputValue := "";
      showPDF := savedShowPDF;
      messages := initialMessages;
    }

    method SetInput(value: string)
      modifies this
      ensures inputValue == value && showPDF == old(showPDF) && messages == old(messages)
    {
      inputValue := value;
    }

    /**
     * `handleSubmit`: a blank box, a pending answer or a missing document
     * stops it, and only the missing document raises a toast; otherwise the
     * trimmed question is sent and the box cleared.
     */
    method HandleSubmit(isLoading: bool, pdfText: string) returns (sent: Option<string>, noDocumentToast: bool)
      modifies this
      ensures sent.Some? <==> Trim(old(inputValue)) != [] && !isLoading && pdfText != []
      ensures sent.Some? ==> sent.value == Trim(old(inputValue)) && inputValue == ""
      ensures sent.None? ==> inputValue == old(inputValue)
      ensures noDocumentToast <==> pdfText == []
      ensures showPDF == old(showPDF) && messages == old(messages)
    {
      var question := Trim(inputValue);
      if question == [] || isLoading || pdfText == [] {
        noDocumentToast := pdfText == [];
        sent := None;
        return;
      }
      noDocumentToast := false;
      inputValue := "";
      sent := Some(question);
    }

    /** `handleSuggestedQuestion`: sent untrimmed, whatever the document, unless an answer is pending. */
    method HandleSuggestedQuestion(question: string, isLoading: bool) returns (sent: Option<string>)
      ensures sent.Some? <==> !isLoading
      ensures sent.Some? ==> sent.value == question
    {
      if isLoading {
        return None;
      }
      return Some(question);
    }

    /** The props' messages replace the panel's copy when they change. */
    method SyncMessages(initialMessages: seq<ChatMessage>)
      modifies this
      ensures messages == initialMessages && inputValue == old(inputValue) && showPDF == old(showPDF)
    {
      messages := initialMessages;
    }

    /** The "clear chat" button empties the panel's copy only. */
    method ClearChat()
      modifies this
      ensures messages == [] && inputValue == old(inputValue) && showPDF == old(showPDF)
    {
      messages := [];
    }

    method TogglePDF()
      modifies this
      ensures showPDF == !old(showPDF) && inputValue == old(inputValue) && messages == old(messages)
    {
      showPDF := !showPDF;
    }

    method ClosePDF()
      modifies this
      ensures !showPDF && inputValue == old(inputValue) && messages == old(messages)
    {
      showPDF := false;
    }

    /** Losing the file closes the pane; a file leaves it as it is. */
    method FileChanged(hasFile: bool)
      modifies this
      ensures showPDF == (hasFile && old(showPDF)) && inputValue == old(inputValue) && messages == old(messages)
    {
      if !hasFile {
        showPDF := false;
      }
    }
  }
}
