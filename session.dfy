/** `websocket_handler`: one connection's protocol. After the greeting,
    each inbound text message is handled to completion before the next is
    read. The collaborators the handler calls (raster library, vision model,
    speech synthesis, local files and object storage) are supplied from
    outside: a `Raster` for the whole session and a `World` per message. */
module Session {
  import opened Wrappers
  import opened ImageCodec
  import opened Narration
  import opened Artifacts

  /** The text frames the server sends. */
  datatype Reply =
    | Greeting
    | Received
    | Generating
    | Problem
    | Pong
    | AudioLink(id: string)
    | Narrative(text: string)

  const GreetingText: string := "Please click the \"Take Photo\" button to upload a webcam photo to Sir David!!"
  const ReceivedText: string := "Thankyou! Sir David has received your photo and is analysing it now. Please stand by..."
  const GeneratingText: string := "Analysis complete, generating audio..."
  const ProblemText: string := "Oops, there was a problem -- please try again!"
  const PongText: string := "PONG"

  /** The exact text of each frame. The URL is the fixed public address
      followed by the audio's object name, and the narration is sent as
      the model wrote it, brackets included. */
  function Text(r: Reply): (t: string)
    ensures r.AudioLink? ==> t == BucketUrl + AudioName(r.id)
    ensures r.Narrative? ==> t == r.text
  {
    match r
    case Greeting => GreetingText
    case Received => ReceivedText
    case Generating => GeneratingText
    case Problem => ProblemText
    case Pong => PongText
    case AudioLink(id) => AudioUrl(id)
    case Narrative(text) => text
  }

  /** The steps of one request that call code outside the model, in order. */
  datatype Stage =
    | SaveImage    // image.save to the local file
    | UploadImage  // save_in_gcp of the .png
    | Analyse      // analyse_image, the vision model
    | WriteText    // writing the .txt locally
    | UploadText   // save_in_gcp of the .txt
    | Synthesise   // ElevenLabs generate and save of the .mp3
    | UploadAudio  // save_in_gcp of the .mp3

  /** Whether one of those steps raises, and if so whether the exception is
      a ValueError or ImportError, the only kinds the handler catches. */
  datatype Fault = NoFault | Raises(stage: Stage, caught: bool)

  /** What the outside world supplies while one message is handled: the
      fresh uuid, the vision model's answer and where a step raises. */
  datatype World = World(id: string, analysis: string, fault: Fault)

  /** What the handler did: messages sent to the client in order, artifacts
      uploaded in order, texts synthesised to speech, and whether an
      uncaught exception ended the handler. */
  datatype Trace = Trace(sent: seq<Reply>, stored: seq<Artifact>, spoken: seq<string>, ended: bool)

  const Quiet: Trace := Trace([], [], [], false)

  /** `a`, then `b`. */
  function Then(a: Trace, b: Trace): Trace
  {
    Trace(a.sent + b.sent, a.stored + b.stored, a.spoken + b.spoken, b.ended)
  }

  function Send(r: Reply): Trace { Trace([r], [], [], false) }
  function Store(a: Artifact): Trace { Trace([], [a], [], false) }
  function Speak(text: string): Trace { Trace([], [], [text], false) }

  /** The liveness probe, compared exactly. */
  predicate IsPing(message: string)
  {
    message == "PING" || message == "ping"
  }

  /** The `except (ValueError, ImportError)` block. */
  function Caught(message: string): (t: Trace)
    ensures t.stored == [] && t.spoken == [] && !t.ended
    ensures t.sent == (if IsPing(message) then [Pong] else [])
  {
    if IsPing(message) then Send(Pong) else Quiet
  }

  /** An exception raised once `done` has happened. */
  function Raise(done: Trace, message: string, caught: bool): Trace
  {
    if caught then Then(done, Caught(message))
    else Trace(done.sent, done.stored, done.spoken, true)
  }

  predicate FailsAt(w: World, stage: Stage)
  {
    w.fault.Raises? && w.fault.stage == stage
  }

  /** Step `stage` raises after `done`, or the request goes on as `next`. */
  function Step(w: World, message: string, stage: Stage, done: Trace, next: Trace): Trace
  {
    if FailsAt(w, stage) then Raise(done, message, w.fault.caught) else next
  }

  /** What has happened once the photograph is stored and acknowledged. */
  function Acknowledged(id: string): Trace
  {
    Then(Store(ImageArtifact(id)), Send(Received))
  }

  /** The rest of the branch once the analysis has no refusal marker:
      announce the audio, write and upload the text, synthesise, upload
      the audio, send its URL and the analysis. */
  function Narrate(message: string, w: World): (t: Trace)
    ensures t.ended ==> w.fault.Raises? && !w.fault.caught
    ensures t.spoken == [] || t.spoken == [SpeechText(w.analysis)]
  {
    var id := w.id;
    var generating := Then(Acknowledged(id), Send(Generating));
    var texted := Then(generating, Store(TextArtifact(id)));
    var spoken := Then(texted, Speak(SpeechText(w.analysis)));
    var finished := Then(Then(Then(spoken, Store(AudioArtifact(id))), Send(AudioLink(id))), Send(Narrative(w.analysis)));
    Step(w, message, WriteText, generating,
    Step(w, message, UploadText, generating,
    Step(w, message, Synthesise, texted,
    Step(w, message, UploadAudio, spoken, finished))))
  }

  /** The body of the `if image:` branch. */
  function Pipeline(message: string, w: World): (t: Trace)
    ensures t.ended ==> w.fault.Raises? && !w.fault.caught
    ensures ContainsSorry(w.analysis) ==> t.spoken == [] && |t.stored| <= 1
  {
    var received := Acknowledged(w.id);
    Step(w, message, SaveImage, Quiet,
    Step(w, message, UploadImage, Quiet,
    Step(w, message, Analyse, received,
      if ContainsSorry(w.analysis) then Then(received, Send(Problem))
      else Narrate(message, w))))
  }

  /** One pass of the `async for` loop's body. */
  function React(message: string, w: World, raster: Raster): (t: Trace)
    ensures t.ended ==> DecodeImage(message, raster) == Failure(OSError) || (w.fault.Raises? && !w.fault.caught)
    ensures DecodeImage(message, raster).Failure? ==> t.stored == [] && t.spoken == []
  {
    match DecodeImage(message, raster)
    case Failure(OSError) => Trace([], [], [], true)
    case Failure(_) => Caught(message)
    case Success(_) => Pipeline(message, w)
  }

  /** The loop, given the reaction to each inbound message in order: the
      reactions are taken one after another until one ends the handler. */
  function Collect(reactions: seq<Trace>): Trace
    decreases |reactions|
  {
    if |reactions| == 0 then Quiet
    else if reactions[0].ended then reactions[0]
    else Then(reactions[0], Collect(reactions[1..]))
  }

  /** The reaction to each inbound message, in order. */
  function Reactions(messages: seq<string>, worlds: seq<World>, raster: Raster): (rs: seq<Trace>)
    requires |worlds| == |messages|
    ensures |rs| == |messages|
  {
    seq(|messages|, i requires 0 <= i < |messages| => React(messages[i], worlds[i], raster))
  }

  /** The `async for` loop over the inbound messages. */
  function Run(messages: seq<string>, worlds: seq<World>, raster: Raster): (t: Trace)
    requires |worlds| == |messages|
    ensures |messages| == 0 ==> t == Quiet
  {
    Collect(Reactions(messages, worlds, raster))
  }

  /** The whole handler: the greeting, then the loop. */
  function Handler(messages: seq<string>, worlds: seq<World>, raster: Raster): (t: Trace)
    requires |worlds| == |messages|
    ensures |t.sent| > 0 && t.sent[0] == Greeting
  {
    Then(Send(Greeting), Run(messages, worlds, raster))
  }

  /** The handler's body for one message, run as the source runs it:
      decode, and on failure the except block or, for an uncaught error, the
      end of the handler. `React` is its specification. */
  method HandleMessage(message: string, w: World, raster: Raster) returns (t: Trace)
    ensures t == React(message, w, raster)
  {
    var decoded := DecodeImage(message, raster);
    if decoded.Failure? {
      if decoded.error == OSError {
        return Trace([], [], [], true);
      }
      return Caught(message);
    }
    t := ProcessImage(message, w);
  }

  /** The `if image:` branch, step by step as the source runs it: each
      upload, message and synthesis is appended to the trace as it happens,
      and a raising step leaves the trace as it stands. `Pipeline` is its
      specification. */
  method ProcessImage(message: string, w: World) returns (t: Trace)
    ensures t == Pipeline(message, w)
  {
    var id := w.id;
    if FailsAt(w, SaveImage) || FailsAt(w, UploadImage) {
      return Raise(Quiet, message, w.fault.caught);
    }
    t := Store(ImageArtifact(id));
    t := Then(t, Send(Received));
    if FailsAt(w, Analyse) {
      return Raise(t, message, w.fault.caught);
    }
    if ContainsSorry(w.analysis) {
      t := Then(t, Send(Problem));
      return;
    }
    t := Then(t, Send(Generating));
    if FailsAt(w, WriteText) || FailsAt(w, UploadText) {
      return Raise(t, message, w.fault.caught);
    }
    t := Then(t, Store(TextArtifact(id)));
    if FailsAt(w, Synthesise) {
      return Raise(t, message, w.fault.caught);
    }
    t := Then(t, Speak(SpeechText(w.analysis)));
    if FailsAt(w, UploadAudio) {
      return Raise(t, message, w.fault.caught);
    }
    t := Then(t, Store(AudioArtifact(id)));
    t := Then(t, Send(AudioLink(id)));
    t := Then(t, Send(Narrative(w.analysis)));
  }

  /** Doing nothing before, or after a trace that has not ended, changes
      nothing. */
  lemma ThenQuiet(t: Trace)
    ensures Then(Quiet, t) == t
    ensures !t.ended ==> Then(t, Quiet) == t
  {
    assert t.sent + [] == t.sent && t.stored + [] == t.stored && t.spoken + [] == t.spoken;
  }

  lemma ThenAssoc(a: Trace, b: Trace, c: Trace)
    ensures Then(Then(a, b), c) == Then(a, Then(b, c))
  {
  }

  /** One turn of the loop, seen from the `i`-th reaction. */
  lemma CollectFrom(reactions: seq<Trace>, i: nat)
    requires i < |reactions|
    ensures Collect(reactions[i..]) ==
            if reactions[i].ended then reactions[i] else Then(reactions[i], Collect(reactions[i + 1..]))
  {
    assert reactions[i..][1..] == reactions[i + 1..];
  }

  /** `websocket_handler`: greet, then handle the messages in order until
      they run out or an uncaught exception ends the handler. `Handler` is
      its specification. */
  method WebsocketHandler(messages: seq<string>, worlds: seq<World>, raster: Raster) returns (t: Trace)
    requires |worlds| == |messages|
    ensures t == Handler(messages, worlds, raster)
  {
    ghost var rs := Reactions(messages, worlds, raster);
    t := Send(Greeting);
    var i := 0;
    while i < |messages| && !t.ended
      invariant 0 <= i <= |messages|
      invariant !t.ended ==> Then(t, Collect(rs[i..])) == Handler(messages, worlds, raster)
      invariant t.ended ==> t == Handler(messages, worlds, raster)
    {
      var r := HandleMessage(messages[i], worlds[i], raster);
      assert r == rs[i];
      CollectFrom(rs, i);
      ThenAssoc(t, r, Collect(rs[i + 1..]));
      t := Then(t, r);
      i := i + 1;
    }
    assert !t.ended ==> rs[i..] == [];
  }

  // ---------------------------------------------------------------------
  // Properties of the protocol

  /** The greeting is sent exactly once, as the first message of every
      session, and a session that receives nothing sends only the greeting. */
  lemma GreetingFirst(messages: seq<string>, worlds: seq<World>, raster: Raster)
    requires |worlds| == |messages|
    ensures |Handler(messages, worlds, raster).sent| > 0
    ensures Handler(messages, worlds, raster).sent[0] == Greeting
    ensures Greeting !in Handler(messages, worlds, raster).sent[1..]
    ensures |messages| == 0 ==> Handler(messages, worlds, raster) == Trace([Greeting], [], [], false)
  {
    var rs := Reactions(messages, worlds, raster);
    forall k | 0 <= k < |rs|
      ensures Greeting !in rs[k].sent
    {
      ReactNeverGreets(messages[k], worlds[k], raster);
    }
    CollectNeverSends(rs, Greeting);
    assert Handler(messages, worlds, raster).sent[1..] == Run(messages, worlds, raster).sent;
  }

  /** No message is answered with the greeting. */
  lemma ReactNeverGreets(message: string, w: World, raster: Raster)
    ensures Greeting !in React(message, w, raster).sent
  {
    if DecodeImage(message, raster).Success? {
      assert !IsPing(message);
      PipelineNeverGreets(message, w);
    }
  }

  lemma PipelineNeverGreets(message: string, w: World)
    requires !IsPing(message)
    ensures Greeting !in Pipeline(message, w).sent
  {
    PipelinePartial(message, w);
    if ContainsSorry(w.analysis) {
      PrefixAvoids(Pipeline(message, w).sent, [Received, Problem], Greeting);
    } else {
      PrefixAvoids(Pipeline(message, w).sent, [Received, Generating, AudioLink(w.id), Narrative(w.analysis)], Greeting);
    }
  }

  lemma PrefixAvoids(sent: seq<Reply>, replies: seq<Reply>, r: Reply)
    requires sent <= replies && r !in replies
    ensures r !in sent
  {
    assert forall j :: 0 <= j < |sent| ==> sent[j] == replies[j];
  }

  /** When none of the steps after the analysis raises, the branch runs to
      completion. */
  lemma NarrateCompletes(message: string, w: World)
    requires !FailsAt(w, WriteText) && !FailsAt(w, UploadText) && !FailsAt(w, Synthesise) && !FailsAt(w, UploadAudio)
    ensures Narrate(message, w) ==
            Trace([Received, Generating, AudioLink(w.id), Narrative(w.analysis)], Bundle(w.id), [SpeechText(w.analysis)], false)
  {
  }

  /** When the analysis is a refusal, the branch stops after the notice. */
  lemma PipelineRefusal(message: string, w: World)
    requires !FailsAt(w, SaveImage) && !FailsAt(w, UploadImage) && !FailsAt(w, Analyse) && ContainsSorry(w.analysis)
    ensures Pipeline(message, w) == Trace([Received, Problem], [ImageArtifact(w.id)], [], false)
  {
  }

  /** A decodable image whose analysis has no refusal marker gets, in
      order, the acknowledgement, the progress notice, the audio URL and the
      analysis; its .png, .txt and .mp3 are uploaded, and the cleaned
      analysis is synthesised. */
  lemma ImageNarrated(message: string, w: World, raster: Raster)
    requires DecodeImage(message, raster).Success?
    requires w.fault == NoFault && !ContainsSorry(w.analysis)
    ensures React(message, w, raster) ==
            Trace([Received, Generating, AudioLink(w.id), Narrative(w.analysis)], Bundle(w.id), [SpeechText(w.analysis)], false)
  {
    NarrateCompletes(message, w);
  }

  /** When the analysis contains the marker, the client gets the
      acknowledgement and the failure notice, and only the .png is kept; a
      fault planned for a later step never happens. */
  lemma ImageRefused(message: string, w: World, raster: Raster)
    requires DecodeImage(message, raster).Success? && ContainsSorry(w.analysis)
    requires !FailsAt(w, SaveImage) && !FailsAt(w, UploadImage) && !FailsAt(w, Analyse)
    ensures React(message, w, raster) == Trace([Received, Problem], [ImageArtifact(w.id)], [], false)
  {
    PipelineRefusal(message, w);
  }

  /** A message that fails validation stores and synthesises nothing, keeps
      the session open, and is answered with "PONG" exactly when it is one
      of the two ping spellings. */
  lemma RejectedMessage(message: string, w: World, raster: Raster)
    requires DecodeImage(message, raster) == Failure(ValueError) ||
             DecodeImage(message, raster) == Failure(ImportError)
    ensures var t := React(message, w, raster);
            t.stored == [] && t.spoken == [] && !t.ended &&
            (t.sent == [Pong] <==> IsPing(message)) &&
            (!IsPing(message) ==> t.sent == [])
  {
  }

  /** "PING" and "ping" never decode, so both are answered with "PONG". */
  lemma PingAnswered(message: string, w: World, raster: Raster)
    requires IsPing(message)
    ensures React(message, w, raster) == Send(Pong)
  {
    NoCommaFails(message, raster);
  }

  /** Any other text without a comma, "Ping" among them, gets no reply. */
  lemma OtherTextIgnored(message: string, w: World, raster: Raster)
    requires ',' !in message && !IsPing(message)
    ensures React(message, w, raster) == Quiet
  {
    NoCommaFails(message, raster);
  }

  lemma MixedCasePingIgnored(w: World, raster: Raster)
    ensures React("Ping", w, raster) == Quiet
  {
    OtherTextIgnored("Ping", w, raster);
  }

  /** A payload the raster library cannot open raises an error the handler
      does not catch: nothing is sent or stored and the handler ends. */
  lemma UnreadableImageEnds(message: string, w: World, raster: Raster)
    requires DecodeImage(message, raster) == Failure(OSError)
    ensures React(message, w, raster) == Trace([], [], [], true)
  {
  }

  /** A raised exception, for a message that is not a ping, leaves what
      has been done as it stands. */
  lemma RaiseKeeps(done: Trace, message: string, caught: bool)
    requires !IsPing(message)
    ensures var t := Raise(done, message, caught);
            t.sent == done.sent && t.stored == done.stored && t.spoken == done.spoken
  {
  }

  lemma NarratePartial(message: string, w: World)
    requires !IsPing(message)
    ensures Narrate(message, w).stored <= Bundle(w.id)
    ensures Narrate(message, w).sent <= [Received, Generating, AudioLink(w.id), Narrative(w.analysis)]
    ensures Narrate(message, w).spoken <= [SpeechText(w.analysis)]
  {
    var id := w.id;
    var generating := Then(Acknowledged(id), Send(Generating));
    var texted := Then(generating, Store(TextArtifact(id)));
    var spoken := Then(texted, Speak(SpeechText(w.analysis)));
    assert generating == Trace([Received, Generating], [ImageArtifact(id)], [], false);
    assert texted == Trace([Received, Generating], [ImageArtifact(id), TextArtifact(id)], [], false);
    assert spoken == Trace([Received, Generating], [ImageArtifact(id), TextArtifact(id)], [SpeechText(w.analysis)], false);
    if FailsAt(w, WriteText) || FailsAt(w, UploadText) {
      RaiseKeeps(generating, message, w.fault.caught);
    } else if FailsAt(w, Synthesise) {
      RaiseKeeps(texted, message, w.fault.caught);
    } else if FailsAt(w, UploadAudio) {
      RaiseKeeps(spoken, message, w.fault.caught);
    } else {
      NarrateCompletes(message, w);
    }
  }

  lemma PipelinePartial(message: string, w: World)
    requires !IsPing(message)
    ensures Pipeline(message, w).stored <= Bundle(w.id)
    ensures Pipeline(message, w).sent <=
              (if ContainsSorry(w.analysis) then [Received, Problem]
               else [Received, Generating, AudioLink(w.id), Narrative(w.analysis)])
    ensures Pipeline(message, w).spoken <= [SpeechText(w.analysis)]
  {
    var t := Pipeline(message, w);
    if FailsAt(w, SaveImage) || FailsAt(w, UploadImage) {
      assert t.sent == [];
    } else if FailsAt(w, Analyse) {
      assert t.sent == [Received];
    } else if ContainsSorry(w.analysis) {
      assert t.sent == [Received, Problem];
    } else {
      NarratePartial(message, w);
    }
  }

  /** Fail fast, no rollback: whatever step raises, the uploads of one
      message are a prefix of its .png, .txt, .mp3, the messages sent a
      prefix of the success or the refusal sequence, and at most the
      cleaned analysis is synthesised. */
  lemma PartialRequests(message: string, w: World, raster: Raster)
    ensures React(message, w, raster).stored <= Bundle(w.id)
    ensures DecodeImage(message, raster).Success? ==>
              React(message, w, raster).sent <=
                (if ContainsSorry(w.analysis) then [Received, Problem]
                 else [Received, Generating, AudioLink(w.id), Narrative(w.analysis)])
    ensures React(message, w, raster).spoken <= [SpeechText(w.analysis)]
  {
    if DecodeImage(message, raster).Success? {
      assert !IsPing(message);
      PipelinePartial(message, w);
    }
  }

  // ---------------------------------------------------------------------
  // Properties of the loop, whatever the reactions are

  /** Reactions that each send one "PONG" and nothing else add up to one
      "PONG" per message. */
  lemma {:induction false} CollectPongs(reactions: seq<Trace>)
    requires forall i :: 0 <= i < |reactions| ==> reactions[i] == Send(Pong)
    ensures Collect(reactions) == Trace(seq(|reactions|, _ => Pong), [], [], false)
    decreases |reactions|
  {
    if |reactions| > 0 {
      CollectPongs(reactions[1..]);
      assert [Pong] + seq(|reactions| - 1, _ => Pong) == seq(|reactions|, _ => Pong);
    }
  }

  /** A reply none of the reactions sends is never sent by the loop. */
  lemma {:induction false} CollectNeverSends(reactions: seq<Trace>, r: Reply)
    requires forall k :: 0 <= k < |reactions| ==> r !in reactions[k].sent
    ensures r !in Collect(reactions).sent
    decreases |reactions|
  {
    if |reactions| > 0 && !reactions[0].ended {
      CollectNeverSends(reactions[1..], r);
      assert Collect(reactions).sent == reactions[0].sent + Collect(reactions[1..]).sent;
    }
  }

  /** Everything the loop uploads was uploaded by one of the reactions. */
  lemma {:induction false} CollectStored(reactions: seq<Trace>)
    ensures forall a :: a in Collect(reactions).stored ==>
              exists k :: 0 <= k < |reactions| && a in reactions[k].stored
    decreases |reactions|
  {
    if |reactions| > 0 && !reactions[0].ended {
      CollectStored(reactions[1..]);
      assert Collect(reactions).stored == reactions[0].stored + Collect(reactions[1..]).stored;
      forall a | a in Collect(reactions).stored
        ensures exists k :: 0 <= k < |reactions| && a in reactions[k].stored
      {
        if a !in reactions[0].stored {
          var k :| 0 <= k < |reactions| - 1 && a in reactions[1..][k].stored;
          assert a in reactions[k + 1].stored;
        }
      }
    }
  }

  /** The loop ends the handler exactly when one of the reactions does. */
  lemma {:induction false} CollectEnded(reactions: seq<Trace>)
    ensures Collect(reactions).ended <==> exists k :: 0 <= k < |reactions| && reactions[k].ended
    decreases |reactions|
  {
    if |reactions| > 0 && !reactions[0].ended {
      CollectEnded(reactions[1..]);
      if exists k :: 0 <= k < |reactions| && reactions[k].ended {
        var k :| 0 <= k < |reactions| && reactions[k].ended;
        assert reactions[1..][k - 1].ended;
      }
      if exists k :: 0 <= k < |reactions| - 1 && reactions[1..][k].ended {
        var k :| 0 <= k < |reactions| - 1 && reactions[1..][k].ended;
        assert reactions[k + 1].ended;
      }
    }
  }

  /** Once a reaction ends the handler, the later ones play no part. */
  lemma {:induction false} CollectStopsAt(reactions: seq<Trace>, k: nat)
    requires k < |reactions| && reactions[k].ended
    ensures Collect(reactions) == Collect(reactions[..k + 1])
    decreases k
  {
    if k > 0 && !reactions[0].ended {
      assert reactions[1..][k - 1] == reactions[k];
      CollectStopsAt(reactions[1..], k - 1);
      assert reactions[..k + 1][1..] == reactions[1..][..k];
    }
  }

  // ---------------------------------------------------------------------
  // Properties of whole sessions

  /** A session of pings only: one "PONG" per ping, nothing stored. */
  lemma PingsOnly(messages: seq<string>, worlds: seq<World>, raster: Raster)
    requires |worlds| == |messages|
    requires forall i :: 0 <= i < |messages| ==> IsPing(messages[i])
    ensures Run(messages, worlds, raster) == Trace(seq(|messages|, _ => Pong), [], [], false)
  {
    var rs := Reactions(messages, worlds, raster);
    forall i | 0 <= i < |rs|
      ensures rs[i] == Send(Pong)
    {
      PingAnswered(messages[i], worlds[i], raster);
    }
    CollectPongs(rs);
  }

  /** Every uploaded artifact belongs to one of the requests: it is an
      artifact named by the id the world supplied for some message. */
  lemma StoredBelongToRequests(messages: seq<string>, worlds: seq<World>, raster: Raster)
    requires |worlds| == |messages|
    ensures forall a :: a in Run(messages, worlds, raster).stored ==>
              exists k :: 0 <= k < |worlds| && a in Bundle(worlds[k].id)
  {
    var rs := Reactions(messages, worlds, raster);
    CollectStored(rs);
    forall a | a in Run(messages, worlds, raster).stored
      ensures exists k :: 0 <= k < |worlds| && a in Bundle(worlds[k].id)
    {
      var k :| 0 <= k < |rs| && a in rs[k].stored;
      PartialRequests(messages[k], worlds[k], raster);
      PrefixHolds(rs[k].stored, Bundle(worlds[k].id), a);
    }
  }

  lemma PrefixHolds(xs: seq<Artifact>, ys: seq<Artifact>, a: Artifact)
    requires xs <= ys && a in xs
    ensures a in ys
  {
    var j :| 0 <= j < |xs| && xs[j] == a;
    assert ys[j] == a;
  }

  /** The handler ends before the messages run out exactly when some
      message raises an exception the handler does not catch. */
  lemma SessionEnds(messages: seq<string>, worlds: seq<World>, raster: Raster)
    requires |worlds| == |messages|
    ensures Handler(messages, worlds, raster).ended <==>
            exists k :: 0 <= k < |messages| && React(messages[k], worlds[k], raster).ended
  {
    var rs := Reactions(messages, worlds, raster);
    CollectEnded(rs);
    if exists k :: 0 <= k < |messages| && React(messages[k], worlds[k], raster).ended {
      var k :| 0 <= k < |messages| && React(messages[k], worlds[k], raster).ended;
      assert rs[k].ended;
    }
  }

  /** Once a message ends the handler, no later message is read. */
  lemma NothingAfterEnd(messages: seq<string>, worlds: seq<World>, raster: Raster, k: nat)
    requires |worlds| == |messages| && k < |messages|
    requires React(messages[k], worlds[k], raster).ended
    ensures Run(messages, worlds, raster) == Run(messages[..k + 1], worlds[..k + 1], raster)
  {
    var rs := Reactions(messages, worlds, raster);
    CollectStopsAt(rs, k);
    assert Reactions(messages[..k + 1], worlds[..k + 1], raster) == rs[..k + 1];
  }

  /** The loop's reactions after the first message are those of the rest. */
  lemma ReactionsTail(messages: seq<string>, worlds: seq<World>, raster: Raster)
    requires |worlds| == |messages| > 0
    ensures Reactions(messages, worlds, raster)[1..] == Reactions(messages[1..], worlds[1..], raster)
  {
  }

  /** A session of one message is that message's reaction. */
  lemma SingleMessage(message: string, w: World, raster: Raster)
    ensures Run([message], [w], raster) == React(message, w, raster)
  {
    var rs := Reactions([message], [w], raster);
    assert rs[0] == React(message, w, raster) && rs[1..] == [];
    assert Collect(rs[1..]) == Quiet;
    ThenQuiet(rs[0]);
    assert Collect(rs) == rs[0];
  }

  /** A message answered with nothing, such as a malformed one, leaves the
      rest of the session exactly as it would have been without it. */
  lemma IgnoredMessage(message: string, w: World, messages: seq<string>, worlds: seq<World>, raster: Raster)
    requires |worlds| == |messages| && React(message, w, raster) == Quiet
    ensures Run([message] + messages, [w] + worlds, raster) == Run(messages, worlds, raster)
  {
    var rs := Reactions([message] + messages, [w] + worlds, raster);
    ReactionsTail([message] + messages, [w] + worlds, raster);
    assert ([message] + messages)[1..] == messages && ([w] + worlds)[1..] == worlds;
    assert rs[0] == Quiet && rs[1..] == Reactions(messages, worlds, raster);
    ThenQuiet(Collect(rs[1..]));
  }

  /** A malformed message does not disturb the session: a valid image sent
      after it is narrated as if it came first. */
  lemma MalformedThenImage(junk: string, image: string, w0: World, w1: World, raster: Raster)
    requires ',' !in junk && !IsPing(junk)
    requires DecodeImage(image, raster).Success? && w1.fault == NoFault && !ContainsSorry(w1.analysis)
    ensures Handler([junk, image], [w0, w1], raster) ==
            Trace([Greeting, Received, Generating, AudioLink(w1.id), Narrative(w1.analysis)], Bundle(w1.id),
                  [SpeechText(w1.analysis)], false)
  {
    OtherTextIgnored(junk, w0, raster);
    assert [junk] + [image] == [junk, image] && [w0] + [w1] == [w0, w1];
    IgnoredMessage(junk, w0, [image], [w1], raster);
    SingleMessage(image, w1, raster);
    ImageNarrated(image, w1, raster);
    GreetedNarration(w1);
  }

  lemma GreetedNarration(w: World)
    ensures Then(Send(Greeting), Trace([Received, Generating, AudioLink(w.id), Narrative(w.analysis)], Bundle(w.id),
                                       [SpeechText(w.analysis)], false)) ==
            Trace([Greeting, Received, Generating, AudioLink(w.id), Narrative(w.analysis)], Bundle(w.id),
                  [SpeechText(w.analysis)], false)
  {
    assert [Greeting] + [Received, Generating, AudioLink(w.id), Narrative(w.analysis)] ==
           [Greeting, Received, Generating, AudioLink(w.id), Narrative(w.analysis)];
  }
}
