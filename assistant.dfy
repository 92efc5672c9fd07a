/** The listening toggle of `MainActivity`: the `listening` flag, the
    `speechRecognizer` field, and the effects that the button press and the
    recognizer callbacks have on them, down to the request posted and the
    reply spoken. The pure functions `After…` give the state after each event;
    the class `MainActivity` performs the same events in place. */
module Assistant {
  import opened Wrappers
  import opened Json
  import opened Completion
  import Text

  /** What the nullable `speechRecognizer` field refers to. The field is
      never set back to null: after `destroy()` it keeps the dead recognizer. */
  datatype Handle = NoRecognizer | Live | Destroyed

  /** The status line the activity last wrote. */
  datatype Status =
    | Initial
    | RecognizerUnavailable           // recognition is not available on the device
    | Stopped                         // after the user stopped listening
    | RecognitionError(code: int)     // the recognizer reported an error
    | Processing                      // text recognised, being processed
    | AnswerReceived                  // the reply came back and is being spoken
    | RequestFailed(error: RequestError)

  /** `orphans` counts recognizers that are still alive but that the field no
      longer refers to (overwritten without `destroy()`); `sent` are the request
      bodies posted, `spoken` the texts handed to text-to-speech. */
  datatype State = State(
    listening: bool,
    recognizer: Handle,
    orphans: nat,
    status: Status,
    sent: seq<Value>,
    spoken: seq<string>)

  function Init(): State {
    State(false, NoRecognizer, 0, Initial, [], [])
  }

  /** `speechRecognizer?.destroy()` */
  function Released(s: State): (r: State)
    ensures !r.recognizer.Live? && (r.recognizer.NoRecognizer? <==> s.recognizer.NoRecognizer?)
    ensures r == s.(recognizer := r.recognizer)
  {
    if s.recognizer.NoRecognizer? then s else s.(recognizer := Destroyed)
  }

  /** `startListening`, given what `isRecognitionAvailable` answers. */
  function AfterStart(s: State, available: bool): State {
    if !available then s.(status := RecognizerUnavailable)
    else s.(recognizer := Live,
            orphans := if s.recognizer.Live? then s.orphans + 1 else s.orphans,
            listening := true)
  }

  /** `stopListening` */
  function AfterStop(s: State): State {
    Released(s).(listening := false, status := Stopped)
  }

  /** The recognition listener's `onError`. */
  function AfterError(s: State, code: int): State {
    Released(s).(listening := false, status := RecognitionError(code))
  }

  /** The text `onResults` passes on: the matches joined by single spaces, or
      the empty string when the bundle or its list is missing. */
  function Transcript(matches: Option<seq<string>>): string {
    match matches
    case None => ""
    case Some(ms) => Text.Join(ms)
  }

  /** `processUserText`: one request with the text, then speak the reply on
      success or report the failure. */
  function AfterProcess(s: State, userText: string, x: Exchange): State {
    var posted := s.(sent := s.sent + [BuildRequest(userText)]);
    match Reply(x)
    case Success(reply) => posted.(status := AnswerReceived, spoken := s.spoken + [reply])
    case Failure(e) => posted.(status := RequestFailed(e))
  }

  /** The recognition listener's `onResults`, with `processUserText` run to
      completion on the exchange the network yields. */
  function AfterResults(s: State, matches: Option<seq<string>>, x: Exchange): State {
    AfterProcess(s.(status := Processing), Transcript(matches), x)
  }

  /** The button's click listener. */
  function AfterPress(s: State, available: bool): State {
    if s.listening then AfterStop(s) else AfterStart(s, available)
  }

  datatype Event =
    | ButtonPressed(available: bool)
    | RecognizerError(code: int)
    | RecognizerResults(matches: Option<seq<string>>, exchange: Exchange)

  function Step(s: State, e: Event): State {
    match e
    case ButtonPressed(available) => AfterPress(s, available)
    case RecognizerError(code) => AfterError(s, code)
    case RecognizerResults(matches, x) => AfterResults(s, matches, x)
  }

  function Run(s: State, events: seq<Event>): State
    decreases |events|
  {
    if events == [] then s else Run(Step(s, events[0]), events[1..])
  }

  /** At most one recognizer is alive, and it is the one the field refers to
      exactly while `listening` is set; every posted body is a well-formed
      request and every spoken text is trimmed. */
  ghost predicate Inv(s: State) {
    && s.orphans == 0
    && (s.listening <==> s.recognizer.Live?)
    && (forall j | j in s.sent :: RequestUserText(j).Some?)
    && (forall u | u in s.spoken :: Text.IsTrimmed(u))
  }

  /** A press stops when listening and starts otherwise, so afterwards the
      activity listens exactly when it was not and recognition is available. */
  lemma PressToggles(s: State, available: bool)
    ensures AfterPress(s, available).listening == (!s.listening && available)
    ensures s.listening ==> AfterPress(s, available) == AfterStop(s)
    ensures !s.listening ==> AfterPress(s, available) == AfterStart(s, available)
  {
  }

  /** Without recognition `startListening` creates nothing and leaves
      `listening` alone; with it, it ends listening on a live recognizer. */
  lemma StartEffect(s: State, available: bool)
    ensures !available ==> AfterStart(s, available) == s.(status := RecognizerUnavailable)
    ensures available ==> AfterStart(s, available).listening
    ensures available ==> AfterStart(s, available).recognizer == Live
  {
  }

  /** Why the button guards `startListening`: started while a recognizer is
      alive, the old one is overwritten without being destroyed. */
  lemma StartWhileLiveOrphans(s: State)
    requires s.recognizer.Live?
    ensures AfterStart(s, true).orphans == s.orphans + 1
    ensures !Inv(AfterStart(s, true))
  {
  }

  /** `stopListening` and `onError` both end not listening, with the
      recognizer (if one was ever created) destroyed. */
  lemma StopAndErrorRelease(s: State, code: int)
    ensures !AfterStop(s).listening && !AfterError(s, code).listening
    ensures AfterStop(s).recognizer == AfterError(s, code).recognizer
    ensures AfterStop(s).recognizer == (if s.recognizer.NoRecognizer? then NoRecognizer else Destroyed)
    ensures AfterStop(s).orphans == s.orphans && AfterError(s, code).orphans == s.orphans
  {
  }

  /** `onResults` does not reset `listening`, nor touch the recognizer. */
  lemma ResultsKeepListening(s: State, matches: Option<seq<string>>, x: Exchange)
    ensures AfterResults(s, matches, x).listening == s.listening
    ensures AfterResults(s, matches, x).recognizer == s.recognizer
    ensures AfterResults(s, matches, x).orphans == s.orphans
  {
  }

  /** `onResults` posts exactly one request, carrying the transcript verbatim,
      the empty one included. */
  lemma ResultsForwardTranscript(s: State, matches: Option<seq<string>>, x: Exchange)
    ensures var t := AfterResults(s, matches, x);
            && |t.sent| == |s.sent| + 1
            && t.sent[..|s.sent|] == s.sent
            && RequestUserText(t.sent[|s.sent|]) == Some(Transcript(matches))
    ensures matches.None? || matches == Some([]) ==>
              AfterResults(s, matches, x).sent == s.sent + [BuildRequest("")]
  {
    RequestRoundTrip(BuildRequest(Transcript(matches)), Transcript(matches));
    var t := AfterResults(s, matches, x);
    assert t.sent == s.sent + [BuildRequest(Transcript(matches))];
  }

  /** The transcript is the matches run together with single spaces: split
      on spaces it gives the words of every match in order, and the matches
      themselves when none holds a space. */
  lemma TranscriptSplits(ms: seq<string>)
    requires |ms| >= 1
    ensures Text.Split(Transcript(Some(ms))) == Text.SplitAll(ms)
    ensures (forall k | 0 <= k < |ms| :: ' ' !in ms[k]) ==> Text.Split(Transcript(Some(ms))) == ms
  {
    Text.SplitJoinAll(ms);
    if forall k | 0 <= k < |ms| :: ' ' !in ms[k] {
      Text.SplitAllWords(ms);
    }
  }

  /** On success the reply is spoken once; on failure nothing is spoken and
      the failure is what the status reports. */
  lemma ProcessSpeaksReply(s: State, userText: string, x: Exchange)
    ensures Reply(x).Success? ==>
              AfterProcess(s, userText, x).spoken == s.spoken + [Reply(x).value]
              && AfterProcess(s, userText, x).status == AnswerReceived
    ensures Reply(x).Failure? ==>
              AfterProcess(s, userText, x).spoken == s.spoken
              && AfterProcess(s, userText, x).status == RequestFailed(Reply(x).error)
    ensures AfterProcess(s, userText, x).listening == s.listening
  {
  }

  lemma StepPreservesInv(s: State, e: Event)
    requires Inv(s)
    ensures Inv(Step(s, e))
  {
    if e.RecognizerResults? {
      var text := Transcript(e.matches);
      RequestRoundTrip(BuildRequest(text), text);
    }
  }

  lemma {:induction false} RunPreservesInv(s: State, events: seq<Event>)
    requires Inv(s)
    ensures Inv(Run(s, events))
    decreases |events|
  {
    if events != [] {
      StepPreservesInv(s, events[0]);
      RunPreservesInv(Step(s, events[0]), events[1..]);
    }
  }

  /** Whatever happens from launch on, no recognizer is ever leaked, the
      flag tracks the live recognizer, and only trimmed replies are spoken. */
  lemma ReachableInv(events: seq<Event>)
    ensures Inv(Run(Init(), events))
  {
    RunPreservesInv(Init(), events);
  }

  /** Since `onResults` leaves `listening` set, after an answer the next
      press only stops, and a second press is needed to listen again. */
  lemma ResultsThenTwoPresses(s: State, matches: Option<seq<string>>, x: Exchange, available: bool)
    requires Inv(s) && s.listening
    ensures var t := AfterResults(s, matches, x);
            && AfterPress(t, available) == AfterStop(t)
            && !AfterPress(t, available).listening
            && AfterPress(AfterPress(t, available), available).listening == available
  {
  }

  /** The activity, with the fields that the source assigns in place. */
  class MainActivity {
    var listening: bool
    var recognizer: Handle
    ghost var orphans: nat
    var status: Status
    var sent: seq<Value>
    var spoken: seq<string>

    ghost function Model(): State
      reads this
    {
      State(listening, recognizer, orphans, status, sent, spoken)
    }

    ghost predicate Valid()
      reads this
    {
      Inv(Model())
    }

    constructor ()
      ensures Valid()
      ensures Model() == Init()
    {
      listening := false;
      recognizer := NoRecognizer;
      orphans := 0;
      status := Initial;
      sent := [];
      spoken := [];
    }

    /** The click listener of the listen button. */
    method Press(available: bool)
      requires Valid()
      modifies this
      ensures Valid()
      ensures Model() == AfterPress(old(Model()), available)
    {
      if listening {
        StopListening();
      } else {
        StartListening(available);
      }
    }

    /** Only ever called by the click listener, when not listening. */
    method StartListening(available: bool)
      requires Valid() && !listening
      modifies this
      ensures Valid()
      ensures Model() == AfterStart(old(Model()), available)
    {
      if !available {
        status := RecognizerUnavailable;
        return;
      }
      recognizer := Live;
      listening := true;
    }

    method StopListening()
      requires Valid()
      modifies this
      ensures Valid()
      ensures Model() == AfterStop(old(Model()))
    {
      if !recognizer.NoRecognizer? {
        recognizer := Destroyed;
      }
      listening := false;
      status := Stopped;
    }

    method OnError(code: int)
      requires Valid()
      modifies this
      ensures Valid()
      ensures Model() == AfterError(old(Model()), code)
    {
      status := RecognitionError(code);
      listening := false;
      if !recognizer.NoRecognizer? {
        recognizer := Destroyed;
      }
    }

    method OnResults(matches: Option<seq<string>>, x: Exchange)
      requires Valid()
      modifies this
      ensures Valid()
      ensures Model() == AfterResults(old(Model()), matches, x)
    {
      var text := Transcript(matches);
      status := Processing;
      ProcessUserText(text, x);
    }

    method ProcessUserText(userText: string, x: Exchange)
      requires Valid()
      modifies this
      ensures Valid()
      ensures Model() == AfterProcess(old(Model()), userText, x)
    {
      RequestRoundTrip(BuildRequest(userText), userText);
      sent := sent + [BuildRequest(userText)];
      var reply := Reply(x);
      match reply {
        case Success(answer) =>
          status := AnswerReceived;
          spoken := spoken + [answer];
        case Failure(e) =>
          status := RequestFailed(e);
      }
    }
  }
}
