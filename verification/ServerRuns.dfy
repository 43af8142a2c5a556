/** What the dispatcher guarantees over whole runs: which requests are answered, what the
    answers may contain, and that nothing of an earlier answer is left over. */
module ServerRuns {
  import opened EventRing
  import opened Server
  import opened Wrappers

  // One dispatch's surroundings: the outside world and the focus window's next event.
  datatype Input = Input(world: World, event: Option<Event>)

  ghost predicate Inputs(inputs: seq<Input>) {
    forall i :: 0 <= i < |inputs| ==> inputs[i].world.Valid()
  }

  // No field of an answer is waiting.
  predicate Clean(s: State) {
    s.Valid() && s.response == Zeros(RESPONSE_WORDS)
  }

  function StateAfter(s: State, inputs: seq<Input>): (s': State)
    requires s.Valid() && Inputs(inputs)
    ensures s'.Valid()
  {
    if inputs == [] then s
    else
      var n := |inputs| - 1;
      var before := StateAfter(s, inputs[..n]);
      if before.halted then before else Step(before, inputs[n].world, inputs[n].event).0
  }

  // The code of the request a dispatch serves, if it serves one.
  function ServedCode(s: State, input: Input): Option<int>
    requires s.Valid() && input.world.Valid()
  {
    if !s.halted && Accepted(s, input.world) && !Stops(Received(s.buffer, input.world.read.value), input.world)
    then Some(AsInt(Received(s.buffer, input.world.read.value)[1]))
    else None
  }

  // The codes served by a run, in order.
  function Codes(s: State, inputs: seq<Input>): seq<int>
    requires s.Valid() && Inputs(inputs)
  {
    if inputs == [] then []
    else
      var n := |inputs| - 1;
      Codes(s, inputs[..n]) +
      match ServedCode(StateAfter(s, inputs[..n]), inputs[n])
      case Some(code) => [code]
      case None => []
  }

  // Whether the last code with a say in it asked for silence.
  function LastMode(codes: seq<int>, initially: bool): bool {
    if codes == [] then initially
    else
      match Mode(codes[|codes| - 1])
      case Some(silent) => silent
      case None => LastMode(codes[..|codes| - 1], initially)
  }

  // ---------------------------------------------------------------- one dispatch

  /** A request with a code is consumed once: it is either answered by one packet, with the
      sync flag set to reply, or served in silence, with the flag set to null. Anything else
      is dropped and the flag is left alone. */
  lemma OneOutcome(s: State, input: Input)
    requires s.Valid() && input.world.Valid() && !s.halted
    ensures var (after, outcome, sync, taken) := Step(s, input.world, input.event);
            if ServedCode(s, input).Some? then
              || (outcome.Replied? && sync == Some(2000) && !after.noReply)
              || (outcome.Silent? && sync == Some(0) && after.noReply)
            else
              sync == None && !taken && (outcome.Dropped? || (outcome.Stopped? && after.halted))
  {
    hide Filled, AsInt, Stops, AsksToQuit, After, Packet;
  }

  // Every service that fills an answer also asks for it to be sent.
  lemma UnsetFillsNothing(buffer: seq<int>, response: seq<int>, world: World, event: Option<Event>)
    requires |buffer| == MESSAGE_WORDS && |response| == RESPONSE_WORDS
    requires Mode(AsInt(buffer[1])) != Some(false)
    ensures Filled(buffer, response, world, event) == response
  {
    hide AsInt;
  }

  /** The response buffer is all zero whenever a dispatch starts. */
  lemma CleanKept(s: State, input: Input)
    requires Clean(s) && input.world.Valid()
    ensures Step(s, input.world, input.event).1.Stopped? || Clean(Step(s, input.world, input.event).0)
  {
    hide Filled, Stops, AsksToQuit, Packet, AsInt;
    if Accepted(s, input.world) {
      var buffer := Received(s.buffer, input.world.read.value);
      if Mode(AsInt(buffer[1])) != Some(false) {
        UnsetFillsNothing(buffer, s.response, input.world, input.event);
      }
    }
  }

  lemma {:induction false} AlwaysClean(s: State, inputs: seq<Input>)
    requires Clean(s) && Inputs(inputs) && !StateAfter(s, inputs).halted
    ensures Clean(StateAfter(s, inputs))
  {
    hide Step;
    if inputs != [] {
      var n := |inputs| - 1;
      var before := StateAfter(s, inputs[..n]);
      if !before.halted {
        AlwaysClean(s, inputs[..n]);
        CleanKept(before, inputs[n]);
        StoppedIsHalted(before, inputs[n]);
      }
    }
  }

  lemma StoppedIsHalted(s: State, input: Input)
    requires s.Valid() && input.world.Valid() && !s.halted
    ensures Step(s, input.world, input.event).1.Stopped? <==> Step(s, input.world, input.event).0.halted
  {
    hide Filled, AsInt, Stops, AsksToQuit, After, Packet;
  }

  // ---------------------------------------------------------------- who is answered

  lemma NoReplyStep(s: State, input: Input)
    requires s.Valid() && input.world.Valid() && !s.halted
    ensures var after := Step(s, input.world, input.event).0;
            after.noReply == match ServedCode(s, input) case Some(code) => After(s.noReply, code) case None => s.noReply
  {
    hide Filled, AsInt, Stops, AsksToQuit, Mode, After, Packet;
  }

  /** Over any run the no-reply flag says what the last request with a say in it wanted. */
  lemma {:induction false} FlagIsLastMode(s: State, inputs: seq<Input>)
    requires s.Valid() && Inputs(inputs)
    ensures StateAfter(s, inputs).noReply == LastMode(Codes(s, inputs), s.noReply)
  {
    hide Step, ServedCode, Mode;
    if inputs != [] {
      var n := |inputs| - 1;
      var before := StateAfter(s, inputs[..n]);
      FlagIsLastMode(s, inputs[..n]);
      if before.halted {
        HaltedServesNothing(before, inputs[n]);
      } else {
        NoReplyStep(before, inputs[n]);
      }
      if ServedCode(before, inputs[n]).Some? {
        LastModeNext(Codes(s, inputs[..n]), ServedCode(before, inputs[n]).value, s.noReply);
      } else {
        assert Codes(s, inputs) == Codes(s, inputs[..n]);
      }
    }
  }

  lemma HaltedServesNothing(s: State, input: Input)
    requires s.Valid() && input.world.Valid() && s.halted
    ensures ServedCode(s, input) == None
  {
  }

  lemma LastModeNext(codes: seq<int>, code: int, initially: bool)
    ensures LastMode(codes + [code], initially) == After(LastMode(codes, initially), code)
  {
    hide Mode;
    assert (codes + [code])[..|codes|] == codes;
  }

  /** The request served last in a run is answered exactly when the last of all codes so far
      with a say in it asked for answers; a code without a case is answered by an error packet
      under the same condition, and is otherwise ignored in silence. */
  lemma AnsweredIff(s: State, inputs: seq<Input>, input: Input)
    requires s.Valid() && Inputs(inputs) && input.world.Valid() && !s.noReply
    requires ServedCode(StateAfter(s, inputs), input).Some?
    ensures var before := StateAfter(s, inputs);
            var outcome := Step(before, input.world, input.event).1;
            var code := ServedCode(before, input).value;
            && (outcome.Replied? <==> !LastMode(Codes(s, inputs) + [code], false))
            && (outcome.Silent? <==> LastMode(Codes(s, inputs) + [code], false))
            && (outcome.Replied? ==>
                  |outcome.packet| == MESSAGE_WORDS && (outcome.packet[1] == TYPE_ERROR <==> !Known(code)))
  {
    hide Mode, Filled, Step, Known, After, LastMode, Codes, StateAfter, Accepted;
    var before := StateAfter(s, inputs);
    ServingIsRunning(before, input);
    FlagIsLastMode(s, inputs);
    LastModeNext(Codes(s, inputs), ServedCode(before, input).value, false);
    OneOutcome(before, input);
    NoReplyStep(before, input);
    if Step(before, input.world, input.event).1.Replied? {
      PacketShape(before, input);
    }
  }

  lemma ServingIsRunning(s: State, input: Input)
    requires s.Valid() && input.world.Valid() && ServedCode(s, input).Some?
    ensures !s.halted
  {
  }

  // ---------------------------------------------------------------- what an answer contains

  lemma PacketShape(s: State, input: Input)
    requires s.Valid() && input.world.Valid() && ServedCode(s, input).Some?
    requires Step(s, input.world, input.event).1.Replied?
    ensures var p := Step(s, input.world, input.event).1.packet;
            var buffer := Received(s.buffer, input.world.read.value);
            var response := Filled(buffer, s.response, input.world, input.event);
            && |p| == MESSAGE_WORDS
            && p[0] == response[0] && p[2..20] == response[2..20] && p[20..] == buffer[20..]
            && p[1] == PacketType(ServedCode(s, input).value, buffer[1] == GET_NEXT_EVENT)
  {
    hide Filled, Stops, Known, After, AsksToQuit;
  }

  // The services look at no word of the request beyond the first two.
  lemma FilledLocal(buffer: seq<int>, buffer': seq<int>, response: seq<int>, world: World, event: Option<Event>)
    requires |buffer| == |buffer'| == MESSAGE_WORDS && |response| == RESPONSE_WORDS
    requires buffer[0] == buffer'[0] && buffer[1] == buffer'[1]
    ensures Filled(buffer, response, world, event) == Filled(buffer', response, world, event)
  {
    hide AsInt;
  }

  // From here on a packet is what the message buffer had beyond the words read.
  function Beyond(words: seq<int>): nat {
    if |words| < 20 then 20 else |words|
  }

  lemma BeyondRead(buffer: seq<int>, buffer': seq<int>, words: seq<int>)
    requires |buffer| == |buffer'| == MESSAGE_WORDS && |words| <= MESSAGE_WORDS
    ensures Received(buffer, words)[20..] == Received(buffer', words)[20..] <==>
            buffer[Beyond(words)..] == buffer'[Beyond(words)..]
  {
    hide Received;
    var m := Beyond(words);
    var front := if |words| < 20 then [] else words[20..];
    ReceivedTail(buffer, words);
    ReceivedTail(buffer', words);
    SameBack(front, buffer[m..], buffer'[m..]);
  }

  lemma ReceivedTail(buffer: seq<int>, words: seq<int>)
    requires |buffer| == MESSAGE_WORDS && |words| <= MESSAGE_WORDS
    ensures Received(buffer, words)[20..] == (if |words| < 20 then [] else words[20..]) + buffer[Beyond(words)..]
  {
  }

  lemma SameBack(front: seq<int>, s: seq<int>, t: seq<int>)
    requires |s| == |t|
    ensures front + s == front + t <==> s == t
  {
    assert (front + s)[|front|..] == s && (front + t)[|front|..] == t;
  }

  /** Two servers with different pasts that serve the same code word, and both answer, give the
      same answer exactly when their message buffers agree from word 20 on or from the end of
      the words read, whichever is further. After a full read nothing of an earlier request or
      answer can show. A read of two words or more brings its own code word. */
  lemma AnswerHidesPast(s: State, s': State, input: Input)
    requires Clean(s) && Clean(s') && input.world.Valid()
    requires ServedCode(s, input).Some? && ServedCode(s', input).Some?
    requires |input.world.read.value| == 1 ==> s.buffer[1] == s'.buffer[1]
    requires Step(s, input.world, input.event).1.Replied? && Step(s', input.world, input.event).1.Replied?
    ensures var m := Beyond(input.world.read.value);
            Step(s, input.world, input.event).1 == Step(s', input.world, input.event).1
            <==> s.buffer[m..] == s'.buffer[m..]
  {
    hide Filled, Step, Known, Beyond;
    var words := input.world.read.value;
    var b, b' := Received(s.buffer, words), Received(s'.buffer, words);
    PacketShape(s, input);
    PacketShape(s', input);
    FilledLocal(b, b', s.response, input.world, input.event);
    BeyondRead(s.buffer, s'.buffer, words);
    var p, p' := Step(s, input.world, input.event).1.packet, Step(s', input.world, input.event).1.packet;
    assert p == [p[0], p[1]] + p[2..20] + p[20..];
    assert p' == [p'[0], p'[1]] + p'[2..20] + p'[20..];
  }

  /** So an answer that follows an answer shows only its own request: beyond the words read it
      is zero. */
  lemma AnswerAfterAnswer(s: State, first: Input, second: Input, j: nat)
    requires s.Valid() && first.world.Valid() && second.world.Valid()
    requires Step(s, first.world, first.event).1.Replied?
    requires var s' := Step(s, first.world, first.event).0;
             ServedCode(s', second).Some? && Step(s', second.world, second.event).1.Replied?
    requires Beyond(second.world.read.value) <= j < MESSAGE_WORDS
    ensures var packet := Step(Step(s, first.world, first.event).0, second.world, second.event).1.packet;
            |packet| == MESSAGE_WORDS && packet[j] == 0
  {
    hide Filled, Stops, Known;
    var s' := Step(s, first.world, first.event).0;
    assert s'.buffer == Zeros(MESSAGE_WORDS);
    var words := second.world.read.value;
    PacketShape(s', second);
    assert Received(s'.buffer, words)[j] == s'.buffer[j] == 0;
    var p := Step(s', second.world, second.event).1.packet;
    assert p[j] == p[20..][j - 20] == Received(s'.buffer, words)[20..][j - 20];
  }

  // But a request served in silence stays in the message buffer, and a later request that is
  // read short of it is answered with its words.
  lemma SilentRequestShows(s: State, v: int, first: Input, second: Input)
    requires Clean(s) && !s.halted
    requires first.world.Valid() && first.world.sync == ACTION_REQUEST
    requires first.world.read == Some([0, 1004] + Zeros(18) + [v] + Zeros(43))
    requires second.world.Valid() && second.world.sync == ACTION_REQUEST
    requires second.world.read == Some([0, 1000] + Zeros(18))
    ensures var s' := Step(s, first.world, first.event).0;
            Step(s', second.world, second.event).1.Replied? && Step(s', second.world, second.event).1.packet[20] == v
  {
    hide Filled;
    var s' := Step(s, first.world, first.event).0;
    var b := Received(s.buffer, first.world.read.value);
    assert b[1] == 1004 && b[20] == v && AsInt(1004) == 1004 && AsInt(1000) == 1000;
    assert s'.buffer == b && !s'.halted;
    var b' := Received(b, second.world.read.value);
    assert b'[1] == 1000 && b'[20] == v;
  }

  // ---------------------------------------------------------------- code by code

  // The k-th word of the message: read, or left over.
  function Word(s: State, input: Input, k: nat): int
    requires s.Valid() && input.world.Valid() && input.world.read.Some? && k < MESSAGE_WORDS
  {
    if k < |input.world.read.value| then input.world.read.value[k] else s.buffer[k]
  }

  lemma WordReceived(s: State, input: Input, k: nat)
    requires s.Valid() && input.world.Valid() && input.world.read.Some? && k < MESSAGE_WORDS
    ensures Received(s.buffer, input.world.read.value)[k] == Word(s, input, k)
  {
  }

  // A code is the message's second word, cut to 32 bits with a sign.
  lemma CodeIsLow(word: int)
    ensures -0x8000_0000 <= AsInt(word) < 0x8000_0000 && (word - AsInt(word)) % 0x1_0000_0000 == 0
  {
    var q := word / 0x1_0000_0000;
    assert word == 0x1_0000_0000 * q + word % 0x1_0000_0000;
    assert word - AsInt(word) == 0x1_0000_0000 * q || word - AsInt(word) == 0x1_0000_0000 * (q + 1);
  }

  /** A request is served unless its code word is zero or it stops the process: creating a
      window of a bad type, without a parent or unmanaged, the exit command, or a reboot the
      kernel heeds. */
  lemma ServedIff(s: State, input: Input)
    requires s.Valid() && input.world.Valid() && !s.halted
    requires input.world.sync == 1000 && input.world.read.Some?
    ensures var c := input.world.creation;
            ServedCode(s, input) ==
            if || Word(s, input, 1) == 0
               || (AsInt(Word(s, input, 1)) == 1001 &&
                   (1024 <= Word(s, input, 10) % 65536 || !c.parent || (c.id.Some? && !c.managed)))
               || (Word(s, input, 1) == 2222 &&
                   (Word(s, input, 2) == 1 || (Word(s, input, 2) == 89 && input.world.reboots)))
            then None else Some(AsInt(Word(s, input, 1)))
  {
    WordReceived(s, input, 1);
    WordReceived(s, input, 2);
    WordReceived(s, input, 10);
  }

  lemma UnservedIsDropped(s: State, input: Input)
    requires s.Valid() && input.world.Valid() && !s.halted
    requires input.world.sync != 1000 || input.world.read.None? || Word(s, input, 1) == 0
    ensures ServedCode(s, input) == None
    ensures var after := Step(s, input.world, input.event).0;
            && after.(buffer := s.buffer) == s
            && forall k :: 0 <= k < MESSAGE_WORDS ==>
                 after.buffer[k] == if k < 6 then 0
                                    else if input.world.sync != 1000 || input.world.read.None? then s.buffer[k]
                                    else Word(s, input, k)
  {
    if input.world.read.Some? {
      WordReceived(s, input, 1);
    }
  }

  /** Which codes ask for an answer, which for silence, and when the server is asked to quit. */
  lemma CodeDecides(s: State, input: Input)
    requires s.Valid() && input.world.Valid() && ServedCode(s, input).Some?
    ensures var (after, outcome, _, _) := Step(s, input.world, input.event);
            var code := ServedCode(s, input).value;
            && (outcome.Replied? <==>
                  || code in {1000, 1001, 1002, 1003, 1008, 1009, 2000, 2021, 2031, 2040, 2041, 2042, 2224, 9093}
                  || (code !in {1004, 1005, 1006, 1007, 2222, 2223, 9099} && !s.noReply))
            && (after.quit <==>
                  || s.quit
                  || (code == 4080 && input.world.windows == 0)
                  || (Word(s, input, 1) == 2222 && Word(s, input, 2) == 88))
  {
    hide Filled, AsInt, Stops, Packet;
    WordReceived(s, input, 1);
    WordReceived(s, input, 2);
    CodeOfCommand();
  }

  lemma CodeOfCommand()
    ensures AsInt(2222) == 2222
  {
  }

  // The dispatch answers with these words in front, and the message's own from word 20 on.
  ghost predicate Answers(s: State, input: Input, front: seq<int>)
    requires s.Valid() && input.world.Valid() && input.world.read.Some?
  {
    var outcome := Step(s, input.world, input.event).1;
    && outcome.Replied? && |outcome.packet| == 64 && outcome.packet[..20] == front
    && forall k :: 20 <= k < 64 ==> outcome.packet[k] == Word(s, input, k)
  }

  lemma AnswerFront(s: State, input: Input)
    requires s.Valid() && input.world.Valid() && ServedCode(s, input).Some?
    requires Step(s, input.world, input.event).1.Replied?
    ensures var b := Received(s.buffer, input.world.read.value);
            var f := Filled(b, s.response, input.world, input.event);
            Answers(s, input, [f[0], PacketType(ServedCode(s, input).value, b[1] == GET_NEXT_EVENT)] + f[2..20])
  {
    hide Filled, PacketType, Step;
    PacketShape(s, input);
    var p := Step(s, input.world, input.event).1.packet;
    assert p[..20] == [p[0], p[1]] + p[2..20];
    forall k | 20 <= k < 64 ensures p[k] == Word(s, input, k) {
      WordReceived(s, input, k);
      assert p[k] == p[20..][k - 20];
    }
  }

  /** Most answers carry nothing but their type, an error for a code without a case. */
  lemma PlainAnswer(s: State, input: Input)
    requires Clean(s) && input.world.Valid() && ServedCode(s, input).Some?
    requires ServedCode(s, input).value !in {1001, 2031, 9093} && Step(s, input.world, input.event).1.Replied?
    ensures var known := {1000, 1002, 1003, 1004, 1005, 1006, 1007, 1008, 1009, 2000, 2010, 2020, 2021, 2030, 2040,
                          2041, 2042, 2222, 2223, 2224, 4080, 8080, 9099};
            Answers(s, input, [0, if ServedCode(s, input).value in known then 1001 else 1003] + Zeros(18))
  {
    hide AsInt, Step, Answers;
    WordReceived(s, input, 1);
    AnswerFront(s, input);
    CodeOfEvent();
    assert s.response[2..20] == Zeros(18);
  }

  lemma CodeOfEvent()
    ensures AsInt(2031) == 2031
  {
  }

  /** The answer about a created window: its id, or nothing when there is none. */
  lemma CreationAnswered(s: State, input: Input)
    requires Clean(s) && input.world.Valid() && ServedCode(s, input) == Some(1001)
    ensures var id := input.world.creation.id;
            Answers(s, input, [if id.Some? then id.value else 0, 1001] + Zeros(18))
  {
    hide AsInt, Step, Answers;
    CodeDecides(s, input);
    AnswerFront(s, input);
    CodeOfEvent();
    var f := CreationFields(s.response, input.world.creation.id);
    assert f[2..20] == Zeros(18);
  }

  /** The answer describing a window: frame and client area of a live one, nothing of another. */
  lemma InfoAnswered(s: State, input: Input)
    requires Clean(s) && input.world.Valid() && ServedCode(s, input) == Some(9093)
    ensures var wid, info := AsInt(Word(s, input, 0)), input.world.info;
            Answers(s, input,
              if 0 <= wid < 1024 && info.Some? then
                var f, c := info.value.frame, info.value.client;
                [wid, 1001, 1234, 5678, 0, 0, 0, f.left, f.top, f.width, f.height,
                 0, 0, c.left, c.top, c.width, c.height, 0, 0, 0]
              else [0, 1001] + Zeros(18))
  {
    hide AsInt, Step, Answers;
    WordReceived(s, input, 0);
    CodeDecides(s, input);
    AnswerFront(s, input);
    CodeOfEvent();
    InfoFront(s, AsInt(Word(s, input, 0)), input.world.info);
  }

  lemma InfoFront(s: State, wid: int, info: Option<WindowInfo>)
    requires Clean(s)
    ensures var r := InfoFields(s.response, wid, info);
            [r[0], 1001] + r[2..20] ==
            if 0 <= wid < 1024 && info.Some? then
              var f, c := info.value.frame, info.value.client;
              [wid, 1001, 1234, 5678, 0, 0, 0, f.left, f.top, f.width, f.height,
               0, 0, c.left, c.top, c.width, c.height, 0, 0, 0]
            else [0, 1001] + Zeros(18)
  {
  }

  // ---------------------------------------------------------------- events

  /** Asking for the next event delivers the focus window's next one, and takes it; without a
      focus window the answer is empty. */
  lemma EventDelivered(s: State, input: Input)
    requires Clean(s) && input.world.Valid() && ServedCode(s, input) == Some(2031)
    ensures Step(s, input.world, input.event).3 == input.event.Some?
    ensures var kind := if Word(s, input, 1) == 2031 then 1002 else 1001;
            Answers(s, input,
              if input.event.Some? then
                var e := input.event.value;
                [0, kind, 1234, 5678, e.wid, e.msg, e.long1, e.long2] + Zeros(12)
              else [0, kind] + Zeros(18))
  {
    hide AsInt, Answers, Stops, Packet, AsksToQuit;
    CodeDecides(s, input);
    AnswerFront(s, input);
    WordReceived(s, input, 1);
    assert s.response[2..20] == Zeros(18);
    if input.event.Some? {
      EventFront(s, input.event.value, if Word(s, input, 1) == 2031 then 1002 else 1001);
    }
  }

  lemma EventFront(s: State, e: Event, kind: int)
    requires Clean(s)
    ensures var r := EventFields(s.response, e);
            [r[0], kind] + r[2..20] == [0, kind, 1234, 5678, e.wid, e.msg, e.long1, e.long2] + Zeros(12)
  {
  }

  // The window manager posts an event to a window, or the dispatcher runs with one in focus.
  datatype Happening =
    | Arrived(window: nat, e: Event)
    | Dispatched(world: World, focus: Option<nat>)

  // The server together with the event rings of its windows.
  datatype Desk = Desk(server: State, rings: seq<Ring>) {
    ghost predicate Valid() {
      server.Valid() && forall w :: 0 <= w < |rings| ==> rings[w].Valid()
    }

    ghost predicate Allows(h: Happening) {
      match h
      case Arrived(w, _) => w < |rings|
      case Dispatched(world, focus) => world.Valid() && (focus.Some? ==> focus.value < |rings|)
    }

    // What a dispatch finds: the focus window offers the event at its ring's head.
    ghost function Found(h: Happening): (input: Input)
      requires Valid() && Allows(h) && h.Dispatched?
      ensures input.world.Valid()
    {
      Input(h.world, if h.focus.None? then None else Some(rings[h.focus.value].Poll().0))
    }

    ghost function Next(h: Happening): (d: Desk)
      requires Valid() && Allows(h)
      ensures d.Valid() && |d.rings| == |rings|
    {
      match h
      case Arrived(w, e) => this.(rings := rings[w := rings[w].Post(e)])
      case Dispatched(world, focus) =>
        if server.halted then this
        else
          var (after, _, _, taken) := Step(server, world, Found(h).event);
          Desk(after, if taken then rings[focus.value := rings[focus.value].Poll().1] else rings)
    }

    // The event a happening brings the client from window w.
    ghost function Brings(h: Happening, w: nat): seq<Event>
      requires Valid() && Allows(h)
    {
      if h.Arrived? || h.focus != Some(w) || ServedCode(server, Found(h)) != Some(GET_NEXT_EVENT) then []
      else
        match Step(server, h.world, Found(h).event).1
        case Replied(p) => [Event(p[4], p[5], p[6], p[7])]
        case _ => []
    }

    // What a happening does to window w's ring.
    ghost function Does(h: Happening, w: nat): seq<Op>
      requires Valid() && Allows(h)
    {
      match h
      case Arrived(v, e) => if v == w then [Posted(e)] else []
      case Dispatched(_, focus) =>
        if focus == Some(w) && ServedCode(server, Found(h)) == Some(GET_NEXT_EVENT) then [Polled] else []
    }
  }

  ghost predicate Possible(d: Desk, hs: seq<Happening>) {
    d.Valid() && forall i :: 0 <= i < |hs| ==> d.Allows(hs[i])
  }

  ghost function DeskAfter(d: Desk, hs: seq<Happening>): (d': Desk)
    requires Possible(d, hs)
    ensures d'.Valid() && |d'.rings| == |d.rings|
  {
    if hs == [] then d else DeskAfter(d, hs[..|hs| - 1]).Next(hs[|hs| - 1])
  }

  // The events the client got from window w, in order.
  ghost function Brought(d: Desk, hs: seq<Happening>, w: nat): seq<Event>
    requires Possible(d, hs)
  {
    if hs == [] then []
    else Brought(d, hs[..|hs| - 1], w) + DeskAfter(d, hs[..|hs| - 1]).Brings(hs[|hs| - 1], w)
  }

  // The posts and polls of window w's ring, in order.
  ghost function Done(d: Desk, hs: seq<Happening>, w: nat): seq<Op>
    requires Possible(d, hs)
  {
    if hs == [] then []
    else Done(d, hs[..|hs| - 1], w) + DeskAfter(d, hs[..|hs| - 1]).Does(hs[|hs| - 1], w)
  }

  lemma TakenWhenAsked(s: State, input: Input)
    requires s.Valid() && input.world.Valid() && !s.halted
    ensures var (_, outcome, _, taken) := Step(s, input.world, input.event);
            && taken == (ServedCode(s, input) == Some(GET_NEXT_EVENT) && input.event.Some?)
            && (taken ==>
                  var e := input.event.value;
                  && outcome.Replied? && |outcome.packet| == MESSAGE_WORDS
                  && outcome.packet[4..8] == [e.wid, e.msg, e.long1, e.long2])
  {
    hide AsInt, Stops, Packet, Filled, AsksToQuit;
    if ServedCode(s, input) == Some(GET_NEXT_EVENT) && input.event.Some? {
      CodeDecides(s, input);
      PacketShape(s, input);
      var e, p := input.event.value, Step(s, input.world, input.event).1.packet;
      FilledByEvent(Received(s.buffer, input.world.read.value), s.response, input.world, e);
      SliceOfFields(p);
    }
  }

  lemma SliceOfFields(p: seq<int>)
    requires |p| == MESSAGE_WORDS
    ensures p[4..8] == p[2..20][2..6]
  {
  }

  lemma FilledByEvent(buffer: seq<int>, response: seq<int>, world: World, e: Event)
    requires |buffer| == MESSAGE_WORDS && |response| == RESPONSE_WORDS && AsInt(buffer[1]) == GET_NEXT_EVENT
    ensures Filled(buffer, response, world, Some(e))[2..20][2..6] == [e.wid, e.msg, e.long1, e.long2]
  {
  }

  // One request for the next event is one poll of the focus window's ring.
  lemma BringsPolled(d: Desk, h: Happening, w: nat)
    requires d.Valid() && d.Allows(h) && w < |d.rings|
    ensures d.Brings(h, w) == Run(d.rings[w], d.Does(h, w)).1
    ensures d.Next(h).rings[w] == Run(d.rings[w], d.Does(h, w)).0
  {
    hide Step, ServedCode, Ring.Poll, Ring.Post;
    RunOne(d.rings[w]);
    if h.Dispatched? && !d.server.halted {
      TakenWhenAsked(d.server, d.Found(h));
      var outcome := Step(d.server, h.world, d.Found(h).event).1;
      if outcome.Replied? && |outcome.packet| == MESSAGE_WORDS {
        FourWords(outcome.packet);
      }
    } else if h.Dispatched? {
      HaltedServesNothing(d.server, d.Found(h));
    }
  }

  lemma FourWords(p: seq<int>)
    requires |p| == MESSAGE_WORDS
    ensures p[4..8] == [p[4], p[5], p[6], p[7]]
  {
  }

  lemma RunOne(r: Ring)
    requires r.Valid()
    ensures Run(r, []) == (r, []) && Run(r, [Polled]) == (r.Poll().1, [r.Poll().0])
    ensures forall e :: Run(r, [Posted(e)]) == (r.Post(e), [])
  {
    hide Ring.Poll, Ring.Post;
    assert [Polled][..0] == [] && [] + [r.Poll().0] == [r.Poll().0];
    forall e: Event ensures Run(r, [Posted(e)]) == (r.Post(e), []) {
      assert [Posted(e)][..0] == [];
    }
  }

  lemma {:induction false} RunAppend(r: Ring, ops: seq<Op>, more: seq<Op>)
    requires r.Valid()
    ensures Run(r, ops + more).0 == Run(Run(r, ops).0, more).0
    ensures Run(r, ops + more).1 == Run(r, ops).1 + Run(Run(r, ops).0, more).1
  {
    if more == [] {
      assert ops + more == ops;
    } else {
      assert (ops + more)[..|ops + more| - 1] == ops + more[..|more| - 1];
      RunAppend(r, ops, more[..|more| - 1]);
    }
  }

  /** Over any run of posts and dispatches, with any changes of focus, the events a window's
      answers carry are those the polls of its ring return, one for each request. */
  lemma {:induction false} AnswersCarryPolls(d: Desk, hs: seq<Happening>, w: nat)
    requires Possible(d, hs) && w < |d.rings|
    ensures DeskAfter(d, hs).rings[w] == Run(d.rings[w], Done(d, hs, w)).0
    ensures Brought(d, hs, w) == Run(d.rings[w], Done(d, hs, w)).1
  {
    hide Run, Desk.Next, Desk.Brings, Desk.Does;
    if hs == [] {
      RunOne(d.rings[w]);
    } else {
      var n := |hs| - 1;
      AnswersCarryPolls(d, hs[..n], w);
      BringsPolled(DeskAfter(d, hs[..n]), hs[n], w);
      RunAppend(d.rings[w], Done(d, hs[..n], w), DeskAfter(d, hs[..n]).Does(hs[n], w));
    }
  }}
