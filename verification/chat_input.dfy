/**
 * The input box under the conversation: a text field, a microphone toggle for
 * speech recognition, a loudspeaker toggle for reading replies aloud, and a send
 * button. Each handler is a transition on an immutable `InputBox` record.
 */
module ChatInput {
  import opened Wrappers
  import opened JsString

  /** The box's state; `hasRecognizer` records whether the browser offered speech recognition. */
  datatype InputBox = InputBox(input: string, listening: bool, speechEnabled: bool, hasRecognizer: bool)

  /** What a submit hands to the page: the typed text and whether its reply is to be spoken. */
  datatype Outgoing = Outgoing(text: string, speak: bool)

  /** A submit's outcome: the new box and the message sent, if any. */
  datatype Submitted = Submitted(box: InputBox, sent: Option<Outgoing>)

  /** What `toggleListening` asks of the recognizer. */
  datatype Command = NoCommand | StartRecognition | StopRecognition

  /** A toggle's outcome: the new box and the command issued. */
  datatype Toggled = Toggled(box: InputBox, command: Command)

  /** Without a recognizer the box never listens. */
  predicate Valid(b: InputBox) {
    b.hasRecognizer || !b.listening
  }

  /** The box as first rendered: empty, not listening, speech on. */
  function Initial(hasRecognizer: bool): (b: InputBox)
    ensures Valid(b) && b.input == [] && !b.listening && b.speechEnabled
  {
    InputBox([], false, true, hasRecognizer)
  }

  /** `handleSubmit` */
  function Submit(b: InputBox): (r: Submitted)
    ensures r.sent.Some? <==> !AllSpace(b.input)
    ensures r.sent.None? ==> r.box == b
    ensures r.sent.Some? ==> r.sent.value.text == b.input && r.box.input == []
    ensures r.box.listening == b.listening && r.box.speechEnabled == b.speechEnabled
    ensures r.box.hasRecognizer == b.hasRecognizer
  {
    TrimEmptyIff(b.input);
    if Trim(b.input) != [] then Submitted(b.(input := []), Some(Outgoing(b.input, b.speechEnabled)))
    else Submitted(b, None)
  }

  /** `handleKeyPress`: only the Enter key submits. */
  function KeyPress(b: InputBox, key: string): (r: Submitted)
    ensures key != "Enter" ==> r == Submitted(b, None)
    ensures key == "Enter" ==> r == Submit(b)
  {
    if key == "Enter" then Submit(b) else Submitted(b, None)
  }

  /** `toggleListening` */
  function ToggleListening(b: InputBox): (r: Toggled)
    ensures !b.hasRecognizer ==> r == Toggled(b, NoCommand)
    ensures b.hasRecognizer ==> r.box.listening == !b.listening
    ensures b.hasRecognizer && b.listening ==> r.command == StopRecognition && r.box.input == b.input
    ensures b.hasRecognizer && !b.listening ==> r.command == StartRecognition && r.box.input == []
    ensures r.box.speechEnabled == b.speechEnabled && r.box.hasRecognizer == b.hasRecognizer
  {
    if !b.hasRecognizer then Toggled(b, NoCommand)
    else if b.listening then Toggled(b.(listening := false), StopRecognition)
    else Toggled(b.(input := [], listening := true), StartRecognition)
  }

  /** `toggleSpeech` */
  function ToggleSpeech(b: InputBox): (r: InputBox)
    ensures r.speechEnabled == !b.speechEnabled
    ensures r.input == b.input && r.listening == b.listening && r.hasRecognizer == b.hasRecognizer
  {
    b.(speechEnabled := !b.speechEnabled)
  }

  /** Everything that can happen to the box. */
  datatype Event =
    | Typed(value: string)         // the field's `onChange`
    | Key(key: string)             // `onKeyPress`
    | SendClicked
    | MicClicked
    | SpeakerClicked
    | Heard(transcript: string)    // the recognizer's `onresult`
    | RecognizerStopped            // the recognizer's `onerror` or `onend`

  /** The box after an event, with the message it sent, if any. The recognizer only
      reports while it exists. */
  function Handle(b: InputBox, e: Event): (r: Submitted)
    ensures e.SendClicked? || e.Key? || r.sent.None?
    ensures r.box.hasRecognizer == b.hasRecognizer
  {
    match e
    case Typed(value) => Submitted(b.(input := value), None)
    case Key(key) => KeyPress(b, key)
    case SendClicked => Submit(b)
    case MicClicked => Submitted(ToggleListening(b).box, None)
    case SpeakerClicked => Submitted(ToggleSpeech(b), None)
    case Heard(transcript) =>
      if b.hasRecognizer then Submitted(b.(input := transcript, listening := false), None)
      else Submitted(b, None)
    case RecognizerStopped =>
      if b.hasRecognizer then Submitted(b.(listening := false), None) else Submitted(b, None)
  }

  /** Every event keeps a box without a recognizer from listening. */
  lemma HandleKeepsValid(b: InputBox, e: Event)
    requires Valid(b)
    ensures Valid(Handle(b, e).box)
  {
  }

  /** The messages a sequence of events sends, in order, and the final box. */
  function Run(b: InputBox, events: seq<Event>): (r: (InputBox, seq<Outgoing>))
    decreases |events|
  {
    if events == [] then (b, [])
    else
      var step := Handle(b, events[0]);
      var rest := Run(step.box, events[1..]);
      (rest.0, (if step.sent.Some? then [step.sent.value] else []) + rest.1)
  }

  /** No run ever sends blank text, and a run keeps the box valid. */
  lemma {:induction false} RunSendsOnlyVisibleText(b: InputBox, events: seq<Event>)
    requires Valid(b)
    ensures Valid(Run(b, events).0)
    ensures forall k :: 0 <= k < |Run(b, events).1| ==> !AllSpace(Run(b, events).1[k].text)
    decreases |events|
  {
    if events != [] {
      HandleKeepsValid(b, events[0]);
      RunSendsOnlyVisibleText(Handle(b, events[0]).box, events[1..]);
    }
  }

  /** A second submit right after a successful one sends nothing: the field is empty. */
  lemma SubmitTwiceSendsOnce(b: InputBox)
    ensures Submit(Submit(b).box).sent.None?
  {
    if Submit(b).sent.Some? {
      assert AllSpace(Submit(b).box.input);
    }
  }

  /** Whitespace-only input is never sent, and the box is left exactly as it was. */
  lemma BlankSubmitChangesNothing(b: InputBox)
    requires AllSpace(b.input)
    ensures Submit(b) == Submitted(b, None)
    ensures KeyPress(b, "Enter") == Submitted(b, None)
  {
  }

  /** Toggling speech twice restores the box. */
  lemma ToggleSpeechInvolution(b: InputBox)
    ensures ToggleSpeech(ToggleSpeech(b)) == b
  {
  }

  /** Toggling the microphone twice restores the listening flag; the input survives only
      when the first toggle stopped listening. */
  lemma ToggleListeningTwice(b: InputBox)
    ensures ToggleListening(ToggleListening(b).box).box.listening == b.listening
    ensures b.hasRecognizer && !b.listening ==> ToggleListening(ToggleListening(b).box).box.input == []
    ensures !b.hasRecognizer ==> ToggleListening(ToggleListening(b).box).box == b
  {
  }
}
