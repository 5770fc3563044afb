/**
 * Answer routing: the reply the assistant gives to one question, once the
 * two calls to the remote language model are replaced by their outcomes.
 * The first call classifies the tone of the question; the second, made only
 * for a topic question, generates the answer text.
 */
module AiService {
  import opened Wrappers
  import opened Text

  /** The outcome of one chat-completion request: it threw, or it returned the first choice's message content (possibly absent). */
  datatype Completion = Threw | Returned(content: Option<string>)

  /** The five labels the classifier is asked to answer with. */
  datatype Tone = Greeting | Goodbye | Thanks | Casual | Topic

  const NoContentReply := "Oops! Looks like there's no content to work with. \U{1F914} Please upload a document so I can help you out! \U{1F4C4}"
  const GreetingReply := "Hey there! \U{1F44B} I'm doing awesome \U{2014} just hanging out in the cloud \U{2601}\U{FE0F} and ready to assist you. What can I help you with today? \U{1F60A}"
  const GoodbyeReply := "Bye for now! \U{1F44B} Catch you later, and feel free to come back anytime. \U{1F31F}"
  const ThanksReply := "You're welcome! \U{1F60A} I'm here anytime if you need more info. \U{1F50D}"
  const CasualReply := "Haha, I'm all good in the cloud! \U{1F604} What are you looking to explore today? \U{1F4AC}"
  const RephraseReply := "Sorry, I didn't quite catch that. Can you rephrase or ask something else? \U{1F914}"
  const ApologyReply := "\U{26A0}\U{FE0F} Oops! Something went wrong while processing your question. Try again later. \U{1F615}"
  /** Stands in for an answer whose generated content is missing or empty. */
  const MissingAnswer := "Oops! Something went wrong. \U{1F62C} Try again!"

  const GooglePrefix := "https://www.google.com/search?q="
  const YoutubePrefix := "https://www.youtube.com/results?search_query="

  /** The head of the page note, up to and including the word "page". */
  const NoteHead := "\n\n\U{1F4C4} This info came from page"

  // ---------------------------------------------------------------------------
  // Tone classification

  /** The classifier's answer as `detectTone` returns it: trimmed, then lower-cased; absent when the content is absent. */
  function NormaliseLabel(content: Option<string>): (name: Option<string>)
    ensures name.None? <==> content.None?
    ensures name.Some? ==> |name.value| <= |content.value| && forall i :: 0 <= i < |name.value| ==> !('A' <= name.value[i] <= 'Z')
  {
    match content
    case None => None
    case Some(c) => Some(Lower(Trim(c)))
  }

  /** The label the classifier is told to answer with for each tone. */
  function Label(t: Tone): string {
    match t
    case Greeting => "greeting"
    case Goodbye => "goodbye"
    case Thanks => "thanks"
    case Casual => "casual"
    case Topic => "topic"
  }

  /** The tone a normalised label names, if it names one. */
  function ToneOf(name: Option<string>): (tone: Option<Tone>)
    ensures forall t :: tone == Some(t) <==> name == Some(Label(t))
  {
    match name
    case Some("greeting") => Some(Greeting)
    case Some("goodbye") => Some(Goodbye)
    case Some("thanks") => Some(Thanks)
    case Some("casual") => Some(Casual)
    case Some("topic") => Some(Topic)
    case _ => None
  }

  /** White space around the classifier's answer and the case of its letters do not change the label. */
  lemma LabelIgnoresPaddingAndCase(front: string, word: string, back: string)
    requires AllSpace(front) && AllSpace(back)
    requires word == [] || (!IsSpace(word[0]) && !IsSpace(word[|word| - 1]))
    ensures NormaliseLabel(Some(front + word + back)) == Some(Lower(word))
  {
    TrimPadded(front, word, back);
  }

  // ---------------------------------------------------------------------------
  // External search links

  /** The characters `encodeURIComponent` leaves as they are. */
  predicate IsUnreserved(c: char) {
    || ('A' <= c <= 'Z') || ('a' <= c <= 'z') || ('0' <= c <= '9')
    || c == '-' || c == '_' || c == '.' || c == '!' || c == '~' || c == '*' || c == '\'' || c == '(' || c == ')'
  }

  predicate IsByte(b: nat) {
    b < 256
  }

  /** Upper-case hexadecimal digit, as `encodeURIComponent` writes them. */
  function HexDigit(d: nat): (c: char)
    requires d < 16
    ensures IsUnreserved(c)
  {
    if d < 10 then ('0' as int + d) as char else ('A' as int + d - 10) as char
  }

  /** The value of a hexadecimal digit, either case. */
  function HexValue(c: char): Option<nat> {
    if '0' <= c <= '9' then Some(c as int - '0' as int)
    else if 'A' <= c <= 'F' then Some(c as int - 'A' as int + 10)
    else if 'a' <= c <= 'f' then Some(c as int - 'a' as int + 10)
    else None
  }

  /** The UTF-8 encoding of one code point. */
  function Utf8(c: char): (bytes: seq<nat>)
    ensures 1 <= |bytes| <= 4
    ensures forall i :: 0 <= i < |bytes| ==> IsByte(bytes[i])
  {
    var cp := c as int;
    if cp < 0x80 then [cp]
    else if cp < 0x800 then [0xC0 + cp / 64, 0x80 + cp % 64]
    else if cp < 0x10000 then [0xE0 + cp / 4096, 0x80 + (cp / 64) % 64, 0x80 + cp % 64]
    else [0xF0 + cp / 262144, 0x80 + (cp / 4096) % 64, 0x80 + (cp / 64) % 64, 0x80 + cp % 64]
  }

  /** Each byte written as `%` and two upper-case hexadecimal digits. */
  function PercentBytes(bytes: seq<nat>): (r: string)
    requires forall i :: 0 <= i < |bytes| ==> IsByte(bytes[i])
    ensures |r| == 3 * |bytes|
    ensures forall i :: 0 <= i < |r| ==> IsUnreserved(r[i]) || r[i] == '%'
  {
    if bytes == [] then ""
    else
      assert bytes[0] / 16 < 16 by { assert IsByte(bytes[0]); }
      ['%', HexDigit(bytes[0] / 16), HexDigit(bytes[0] % 16)] + PercentBytes(bytes[1..])
  }

  function EncodeChar(c: char): string {
    if IsUnreserved(c) then [c] else PercentBytes(Utf8(c))
  }

  /** `encodeURIComponent`: unreserved characters stay, every other character becomes the percent escapes of its UTF-8 bytes, so the result holds only unreserved characters and `%`. */
  function EncodeURIComponent(s: string): (encoded: string)
    ensures QuerySafe(encoded)
  {
    if s == [] then ""
    else
      assert QuerySafe(EncodeChar(s[0]));
      QuerySafeConcat(EncodeChar(s[0]), EncodeURIComponent(s[1..]));
      EncodeChar(s[0]) + EncodeURIComponent(s[1..])
  }

  /** Reads the percent escape `%XY` at the start of `s` as a byte. */
  function EscapedByte(s: string): Option<nat> {
    if |s| < 3 || s[0] != '%' then None
    else match (HexValue(s[1]), HexValue(s[2]))
      case (Some(hi), Some(lo)) => Some(hi * 16 + lo)
      case _ => None
  }

  /** Reads `n` consecutive percent escapes at the start of `s`. */
  function EscapedBytes(s: string, n: nat): (r: Option<seq<nat>>)
    ensures r.Some? ==> |r.value| == n && 3 * n <= |s|
  {
    if n == 0 then Some([])
    else if |s| < 3 then None
    else match (EscapedByte(s), EscapedBytes(s[3..], n - 1))
      case (Some(b), Some(bs)) => Some([b] + bs)
      case _ => None
  }

  /** The length of the UTF-8 sequence a lead byte starts, or 0 when it cannot start one. */
  function SequenceLength(b0: nat): nat {
    if b0 < 0x80 then 1 else if 0xC0 <= b0 < 0xE0 then 2 else if 0xE0 <= b0 < 0xF0 then 3 else if 0xF0 <= b0 < 0xF8 then 4 else 0
  }

  predicate IsContinuation(b: nat) {
    0x80 <= b < 0xC0
  }

  /** The code point a well-formed, shortest UTF-8 sequence stands for. */
  function CodePoint(bytes: seq<nat>): Option<char>
    requires 1 <= |bytes| <= 4
  {
    var n := |bytes|;
    if SequenceLength(bytes[0]) != n then None
    else if exists i | 1 <= i < n :: !IsContinuation(bytes[i]) then None
    else
      var cp :=
        if n == 1 then bytes[0]
        else if n == 2 then (bytes[0] - 0xC0) * 64 + (bytes[1] - 0x80)
        else if n == 3 then (bytes[0] - 0xE0) * 4096 + (bytes[1] - 0x80) * 64 + (bytes[2] - 0x80)
        else (bytes[0] - 0xF0) * 262144 + (bytes[1] - 0x80) * 4096 + (bytes[2] - 0x80) * 64 + (bytes[3] - 0x80);
      var least := if n == 1 then 0 else if n == 2 then 0x80 else if n == 3 then 0x800 else 0x10000;
      if least <= cp && (cp < 0xD800 || 0xE000 <= cp < 0x110000) then Some(cp as char) else None
  }

  /** Reads one code point from the percent escapes at the start of `s`; gives it with the number of characters read. */
  function DecodeEscapedChar(s: string): (r: Option<(char, nat)>)
    ensures r.Some? ==> 0 < r.value.1 <= |s|
  {
    match EscapedByte(s)
    case None => None
    case Some(b0) =>
      var n := SequenceLength(b0);
      if n == 0 then None
      else match EscapedBytes(s, n)
        case None => None
        case Some(bytes) =>
          match CodePoint(bytes)
          case None => None
          case Some(c) => Some((c, 3 * n))
  }

  /** `decodeURIComponent`; `None` where it throws a `URIError`. */
  function DecodeURIComponent(s: string): Option<string>
    decreases |s|
  {
    if s == [] then Some("")
    else if s[0] != '%' then
      match DecodeURIComponent(s[1..])
      case Some(rest) => Some([s[0]] + rest)
      case None => None
    else
      match DecodeEscapedChar(s)
      case None => None
      case Some((c, k)) =>
        match DecodeURIComponent(s[k..])
        case Some(rest) => Some([c] + rest)
        case None => None
  }

  lemma EscapedBytePrefix(b: nat, rest: string)
    requires IsByte(b)
    ensures EscapedByte(['%', HexDigit(b / 16), HexDigit(b % 16)] + rest) == Some(b)
  {
    assert HexValue(HexDigit(b / 16)) == Some(b / 16);
    assert HexValue(HexDigit(b % 16)) == Some(b % 16);
  }

  lemma {:induction false} EscapedBytesOfPercent(bytes: seq<nat>, rest: string)
    requires forall i :: 0 <= i < |bytes| ==> IsByte(bytes[i])
    ensures EscapedBytes(PercentBytes(bytes) + rest, |bytes|) == Some(bytes)
  {
    if bytes != [] {
      var s := PercentBytes(bytes) + rest;
      var tail := PercentBytes(bytes[1..]) + rest;
      assert s == ['%', HexDigit(bytes[0] / 16), HexDigit(bytes[0] % 16)] + tail;
      EscapedBytePrefix(bytes[0], tail);
      assert s[3..] == tail;
      EscapedBytesOfPercent(bytes[1..], rest);
      assert [bytes[0]] + bytes[1..] == bytes;
    }
  }

  /** The UTF-8 bytes of a character read back as that character. */
  lemma Utf8Decodes(c: char)
    ensures SequenceLength(Utf8(c)[0]) == |Utf8(c)|
    ensures CodePoint(Utf8(c)) == Some(c)
  {
    var cp := c as int;
    if cp < 0x80 {
    } else if cp < 0x800 {
      TwoByteDecodes(c);
    } else if cp < 0x10000 {
      ThreeByteDecodes(c);
    } else {
      FourByteDecodes(c);
    }
  }

  lemma TwoByteDecodes(c: char)
    requires 0x80 <= c as int < 0x800
    ensures SequenceLength(Utf8(c)[0]) == 2 && CodePoint(Utf8(c)) == Some(c)
  {
    var cp := c as int;
    var hi, lo := cp / 64, cp % 64;
    assert cp == hi * 64 + lo;
    assert 2 <= hi < 32;
    assert Utf8(c) == [0xC0 + hi, 0x80 + lo];
  }

  lemma ThreeByteDecodes(c: char)
    requires 0x800 <= c as int < 0x10000
    ensures SequenceLength(Utf8(c)[0]) == 3 && CodePoint(Utf8(c)) == Some(c)
  {
    var cp := c as int;
    var q := cp / 64;
    var b0, b1, b2 := cp / 4096, q % 64, cp % 64;
    assert cp == q * 64 + b2;
    assert q == b0 * 64 + b1;
    assert cp == b0 * 4096 + b1 * 64 + b2;
    assert b0 < 16;
    assert Utf8(c) == [0xE0 + b0, 0x80 + b1, 0x80 + b2];
  }

  lemma FourByteDecodes(c: char)
    requires 0x10000 <= c as int
    ensures SequenceLength(Utf8(c)[0]) == 4 && CodePoint(Utf8(c)) == Some(c)
  {
    var cp := c as int;
    var q := cp / 64;
    var r := q / 64;
    var b0, b1, b2, b3 := cp / 262144, r % 64, q % 64, cp % 64;
    assert cp == q * 64 + b3;
    assert q == r * 64 + b2;
    assert r == b0 * 64 + b1;
    assert r == cp / 4096;
    assert cp == b0 * 262144 + b1 * 4096 + b2 * 64 + b3;
    assert cp < 0x110000;
    assert b0 < 8;
    assert Utf8(c) == [0xF0 + b0, 0x80 + b1, 0x80 + b2, 0x80 + b3];
  }

  /** The escapes of one character's UTF-8 bytes decode to that character. */
  lemma DecodeEncodedChar(c: char, rest: string)
    requires !IsUnreserved(c)
    ensures DecodeEscapedChar(EncodeChar(c) + rest) == Some((c, |EncodeChar(c)|))
  {
    var bytes := Utf8(c);
    var s := PercentBytes(bytes) + rest;
    assert s == ['%', HexDigit(bytes[0] / 16), HexDigit(bytes[0] % 16)] + (PercentBytes(bytes[1..]) + rest);
    EscapedBytePrefix(bytes[0], PercentBytes(bytes[1..]) + rest);
    EscapedBytesOfPercent(bytes, rest);
    Utf8Decodes(c);
  }

  /** The encoding loses nothing: decoding it gives the original text back. */
  lemma {:induction false} DecodeEncode(s: string)
    ensures DecodeURIComponent(EncodeURIComponent(s)) == Some(s)
  {
    if s != [] {
      var e := EncodeURIComponent(s);
      var first := EncodeChar(s[0]);
      var tail := EncodeURIComponent(s[1..]);
      assert e == first + tail;
      DecodeEncode(s[1..]);
      if IsUnreserved(s[0]) {
        assert e[1..] == tail;
      } else {
        DecodeEncodedChar(s[0], tail);
        assert e[0] == '%';
        assert e[|first|..] == tail;
      }
      assert [s[0]] + s[1..] == s;
    }
  }

  /** Only unreserved characters and `%`: nothing that could end or split a URL query parameter. */
  predicate QuerySafe(t: string) {
    forall i :: 0 <= i < |t| ==> IsUnreserved(t[i]) || t[i] == '%'
  }

  lemma QuerySafeConcat(a: string, b: string)
    requires QuerySafe(a) && QuerySafe(b)
    ensures QuerySafe(a + b)
  {
    forall i | 0 <= i < |a + b|
      ensures IsUnreserved((a + b)[i]) || (a + b)[i] == '%'
    {
      if i >= |a| {
        assert (a + b)[i] == b[i - |a|];
      }
    }
  }

  datatype Links = Links(google: string, youtube: string)

  /** The web-search and video-search links for a question: both carry the same encoded question after their fixed prefixes. */
  function FindExternalResources(topic: string): (r: Links)
    ensures |GooglePrefix| <= |r.google| && r.google[..|GooglePrefix|] == GooglePrefix
    ensures |YoutubePrefix| <= |r.youtube| && r.youtube[..|YoutubePrefix|] == YoutubePrefix
    ensures r.google[|GooglePrefix|..] == r.youtube[|YoutubePrefix|..]
    ensures DecodeURIComponent(r.google[|GooglePrefix|..]) == Some(topic)
  {
    var encoded := EncodeURIComponent(topic);
    DecodeEncode(topic);
    var r := Links(GooglePrefix + encoded, YoutubePrefix + encoded);
    assert r.google[|GooglePrefix|..] == encoded;
    assert r.youtube[|YoutubePrefix|..] == encoded;
    r
  }

  // ---------------------------------------------------------------------------
  // Composing the reply

  /** `pages.join(', ')` */
  function JoinNumbers(pages: seq<nat>): string {
    if |pages| == 0 then "" else if |pages| == 1 then NatToString(pages[0])
    else NatToString(pages[0]) + ", " + JoinNumbers(pages[1..])
  }

  /** The note naming the pages the context came from: nothing for no pages, "page" for one, "pages" for more. */
  function PagesNote(pages: seq<nat>): (note: string)
    ensures note == [] <==> pages == []
  {
    if |pages| == 0 then ""
    else NoteHead + (if |pages| > 1 then "s" else "") + " " + JoinNumbers(pages) + "."
  }

  /** The position of the first comma of `s`, or `|s|`. */
  function IndexOfComma(s: string): (k: nat)
    ensures k <= |s|
    ensures forall i :: 0 <= i < k ==> s[i] != ','
    ensures k < |s| ==> s[k] == ','
  {
    if s == [] then 0 else if s[0] == ',' then 0 else 1 + IndexOfComma(s[1..])
  }

  /** Reads back a list of numbers written with `", "` between them. */
  function ParseNumberList(s: string): Option<seq<nat>>
    decreases |s|
  {
    var k := IndexOfComma(s);
    match ParseNat(s[..k])
    case None => None
    case Some(n) =>
      if k == |s| then Some([n])
      else if k + 1 < |s| && s[k + 1] == ' ' then
        match ParseNumberList(s[k + 2..])
        case Some(ns) => Some([n] + ns)
        case None => None
      else None
  }

  /** The page numbers written into the note can be read back exactly. */
  lemma {:induction false} ParseJoinNumbers(pages: seq<nat>)
    requires pages != []
    ensures ParseNumberList(JoinNumbers(pages)) == Some(pages)
  {
    var first := NatToString(pages[0]);
    var s := JoinNumbers(pages);
    ParseNatToString(pages[0]);
    if |pages| == 1 {
      assert s == first + "";
      CommaAfter(first, "");
      assert s[..|s|] == first;
      assert [pages[0]] == pages;
    } else {
      var tail := JoinNumbers(pages[1..]);
      assert s == first + (", " + tail);
      CommaAfter(first, ", " + tail);
      assert s[..|first|] == first;
      assert s[|first| + 2..] == tail;
      ParseJoinNumbers(pages[1..]);
      assert [pages[0]] + pages[1..] == pages;
    }
  }

  lemma {:induction false} CommaAfter(digits: string, rest: string)
    requires AllDigits(digits)
    requires rest == [] || rest[0] == ','
    ensures IndexOfComma(digits + rest) == |digits|
  {
    if digits != [] {
      assert (digits + rest)[1..] == digits[1..] + rest;
      CommaAfter(digits[1..], rest);
    } else {
      assert digits + rest == rest;
    }
  }

  /** The note says "page" for one page and "pages" for more, and the numbers it lists read back as `pages`. */
  lemma PagesNoteReadsBack(pages: seq<nat>)
    requires pages != []
    ensures var head := NoteHead + (if |pages| > 1 then "s " else " ");
      var note := PagesNote(pages);
      && |head| < |note| && note[..|head|] == head && note[|note| - 1] == '.'
      && ParseNumberList(note[|head|..|note| - 1]) == Some(pages)
  {
    var head := NoteHead + (if |pages| > 1 then "s " else " ");
    var note := PagesNote(pages);
    assert note == head + JoinNumbers(pages) + ".";
    assert note[|head|..|note| - 1] == JoinNumbers(pages);
    ParseJoinNumbers(pages);
  }

  /** `content || "Oops! ..."`: a missing or empty answer is replaced by the fixed one. */
  function AnswerText(content: Option<string>): (answer: string)
    ensures answer != []
    ensures content.Some? && content.value != [] ==> answer == content.value
  {
    if content.Some? && content.value != [] then content.value else MissingAnswer
  }

  const ResourcesHead := "\n\U{1F50D} **External resources**:\n- [Google Search]("
  const ResourcesMiddle := ")\n- [YouTube Videos]("
  const ResourcesTail := ")\n      "
  const AnswerHead := "\n\U{1F4A1} **Answer for your question:** \n\n"
  const ClosingLine := "\n\n\U{2728} Let me know if you'd like to dive deeper! \U{1F60A}\n      "

  /** The markdown list of the two search links. */
  function ResourcesBlock(links: Links): (r: string)
    ensures Contains(r, links.google) && Contains(r, links.youtube)
  {
    var parts := [ResourcesHead, links.google, ResourcesMiddle, links.youtube, ResourcesTail];
    JoinContainsEach(parts, "", 1);
    JoinContainsEach(parts, "", 3);
    Join(parts, "")
  }

  /** The reply to a topic question: it carries the answer, the page note and the two search links. */
  function TopicReply(answer: string, pages: seq<nat>, question: string): (r: string)
    ensures Contains(r, answer) && Contains(r, PagesNote(pages))
    ensures Contains(r, FindExternalResources(question).google) && Contains(r, FindExternalResources(question).youtube)
    ensures |r| >= |answer|
  {
    var links := FindExternalResources(question);
    var resources := ResourcesBlock(links);
    var parts := [AnswerHead, answer, "\n\n", PagesNote(pages), "\n\n", resources, ClosingLine];
    var r := Join(parts, "");
    JoinContainsEach(parts, "", 1);
    JoinContainsEach(parts, "", 3);
    JoinContainsEach(parts, "", 5);
    ContainsTransitive(r, resources, links.google);
    ContainsTransitive(r, resources, links.youtube);
    r
  }

  /** The canned reply of a conversational tone. */
  function CannedReply(t: Tone): (r: string)
    requires t != Topic
    ensures r != []
  {
    match t
    case Greeting => GreetingReply
    case Goodbye => GoodbyeReply
    case Thanks => ThanksReply
    case Casual => CasualReply
  }

  /** Which of its replies `generateAnswer` gives, before the reply is spelled out. */
  datatype Reply = NoContent | Apology | Rephrase | Canned(tone: Tone) | Composed(answer: string)

  /**
   * The decisions of `generateAnswer`: `classifier` is what the tone request
   * returned and `generation` what the answer request would return if it is made.
   */
  function Respond(context: string, classifier: Completion, generation: Completion): (r: Reply)
    ensures r.Canned? ==> r.tone != Topic
    ensures r.Composed? ==> r.answer != []
  {
    if Trim(context) == "" then NoContent
    else match classifier
      case Threw => Apology
      case Returned(content) =>
        match ToneOf(NormaliseLabel(content))
        case None => Rephrase
        case Some(Topic) =>
          (match generation
           case Threw => Apology
           case Returned(answer) => Composed(AnswerText(answer)))
        case Some(t) => Canned(t)
  }

  /** The text of a reply: never empty, and a composed reply carries the answer, the page note and both links. */
  function ReplyText(reply: Reply, pages: seq<nat>, question: string): (r: string)
    requires reply.Canned? ==> reply.tone != Topic
    ensures r != []
    ensures reply.Composed? ==>
      && Contains(r, reply.answer) && Contains(r, PagesNote(pages))
      && Contains(r, FindExternalResources(question).google) && Contains(r, FindExternalResources(question).youtube)
  {
    match reply
    case NoContent => NoContentReply
    case Apology => ApologyReply
    case Rephrase => RephraseReply
    case Canned(t) => CannedReply(t)
    case Composed(answer) => TopicReply(answer, pages, question)
  }

  /** `generateAnswer`: the decision, spelled out. */
  function GenerateAnswer(context: string, pages: seq<nat>, question: string, classifier: Completion, generation: Completion): (r: string)
    ensures r != []
  {
    ReplyText(Respond(context, classifier, generation), pages, question)
  }

  /** Empty or blank context gets the fixed reply before the classifier is consulted: its answer does not matter. */
  lemma NoContentBeforeClassification(context: string, classifier: Completion, generation: Completion)
    requires AllSpace(context)
    ensures Respond(context, classifier, generation) == NoContent
  {
    TrimEmptyIffAllSpace(context);
  }

  /** A conversational tone gets its canned reply, whatever the generation request would have returned. */
  lemma ConversationalToneIsCanned(context: string, content: Option<string>, t: Tone, generation: Completion)
    requires !AllSpace(context)
    requires ToneOf(NormaliseLabel(content)) == Some(t) && t != Topic
    ensures Respond(context, Returned(content), generation) == Canned(t)
  {
    TrimEmptyIffAllSpace(context);
  }

  /** A missing label, or any label but the five known ones, gets the rephrase reply without generation. */
  lemma UnknownLabelAsksToRephrase(context: string, content: Option<string>, generation: Completion)
    requires !AllSpace(context)
    requires content.None? || NormaliseLabel(content).value !in {"greeting", "goodbye", "thanks", "casual", "topic"}
    ensures Respond(context, Returned(content), generation) == Rephrase
  {
    TrimEmptyIffAllSpace(context);
  }

  /** A failure of either request becomes the fixed apology. */
  lemma FailureBecomesApology(context: string, content: Option<string>, generation: Completion)
    requires !AllSpace(context)
    ensures Respond(context, Threw, generation) == Apology
    ensures ToneOf(NormaliseLabel(content)) == Some(Topic) ==> Respond(context, Returned(content), Threw) == Apology
  {
    TrimEmptyIffAllSpace(context);
  }

  /** A topic question whose generation succeeds gets the composed reply: the answer (or its stand-in), the page note and both search links. */
  lemma TopicReplyCarriesParts(context: string, pages: seq<nat>, question: string, content: Option<string>, answer: Option<string>)
    requires !AllSpace(context)
    requires ToneOf(NormaliseLabel(content)) == Some(Topic)
    ensures Respond(context, Returned(content), Returned(answer)) == Composed(AnswerText(answer))
    ensures var r := GenerateAnswer(context, pages, question, Returned(content), Returned(answer));
      var links := FindExternalResources(question);
      && Contains(r, AnswerText(answer))
      && Contains(r, PagesNote(pages))
      && Contains(r, links.google)
      && Contains(r, links.youtube)
  {
    TrimEmptyIffAllSpace(context);
    assert Respond(context, Returned(content), Returned(answer)) == Composed(AnswerText(answer));
  }
}
