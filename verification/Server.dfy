/** The display server's dispatcher: read one request, serve it, then reply or stay silent.
    `Step` is one dispatch as a function of the server's state and of what the outside
    answers; the class does it in place, on the shared message and response buffers. */
module Server {
  import opened EventRing
  import opened Wrappers

  const MESSAGE_WORDS: nat := 64    // 512 bytes
  const RESPONSE_WORDS: nat := 32
  const CLIENT_FD: int := 31
  const WINDOW_COUNT_MAX: int := 1024

  const ACTION_NULL: int := 0
  const ACTION_REQUEST: int := 1000
  const ACTION_REPLY: int := 2000

  const TYPE_REPLY: int := 1001
  const TYPE_EVENT: int := 1002
  const TYPE_ERROR: int := 1003

  const CREATE_WINDOW: int := 1001
  const GET_NEXT_EVENT: int := 2031
  const ASYNC_COMMAND: int := 2222
  const QUIT: int := 4080
  const GET_WINDOW_INFO: int := 9093

  // A 64-bit word as the `int` the dialog procedure gets.
  function AsInt(word: int): int {
    var low := word % 0x1_0000_0000;
    if 0x8000_0000 <= low then low - 0x1_0000_0000 else low
  }

  function Zeros(n: nat): seq<int> {
    seq(n, _ => 0)
  }

  /** What a request code does to the no-reply flag: Some(true) silences, Some(false) asks for
      an answer, None leaves the flag as the last request left it. */
  function Mode(msg: int): Option<bool> {
    match msg
    case 1000 | 1001 | 1002 | 1003 | 1008 | 1009 => Some(false)
    case 1004 | 1005 | 1006 | 1007 => Some(true)
    case 2000 | 2021 | 2031 | 2040 | 2041 | 2042 | 2224 | 9093 => Some(false)
    case 2222 | 2223 | 9099 => Some(true)
    case _ => None
  }

  // The codes the dialog procedure has a case for; any other is an error.
  predicate Known(msg: int) {
    Mode(msg).Some? || msg in {2010, 2020, 2030, 4080, 8080}
  }

  // ---------------------------------------------------------------- the outside

  datatype Rectangle = Rectangle(left: int, top: int, width: int, height: int)

  // A live window's frame and client area.
  datatype WindowInfo = WindowInfo(frame: Rectangle, client: Rectangle)

  // Creating a window: whether the parent exists, the new window's id unless creation or
  // registration failed, and whether the window manager took an overlapped one.
  datatype Creation = Creation(parent: bool, id: Option<int>, managed: bool)

  // What one dispatch finds outside the server: the client's sync flag, the words read (None
  // when the read fails), the window system's answers, and whether the kernel heeds a reboot.
  datatype World = World(sync: int, read: Option<seq<int>>, windows: int,
                         creation: Creation, info: Option<WindowInfo>, reboots: bool) {
    predicate Valid() {
      read.Some? ==> 1 <= |read.value| <= MESSAGE_WORDS
    }
  }

  // ---------------------------------------------------------------- one dispatch

  datatype State = State(buffer: seq<int>, response: seq<int>, noReply: bool, quit: bool, halted: bool) {
    predicate Valid() {
      |buffer| == MESSAGE_WORDS && |response| == RESPONSE_WORDS
    }
  }

  /** How a dispatch ends: the request was dropped, served in silence, answered with the given
      packet, or the server stopped. */
  datatype Outcome = Dropped | Silent | Replied(packet: seq<int>) | Stopped

  // The first six words of the message cleared.
  function Forget(buffer: seq<int>): seq<int>
    requires |buffer| == MESSAGE_WORDS
  {
    Zeros(6) + buffer[6..]
  }

  function Received(buffer: seq<int>, words: seq<int>): (r: seq<int>)
    requires |buffer| == MESSAGE_WORDS && |words| <= MESSAGE_WORDS
    ensures |r| == MESSAGE_WORDS
  {
    words + buffer[|words|..]
  }

  // The fields of an event, of a created window, and of a window's description.
  function EventFields(response: seq<int>, e: Event): (r: seq<int>)
    requires |response| == RESPONSE_WORDS
    ensures |r| == RESPONSE_WORDS
  {
    response[0 := 0][1 := TYPE_EVENT][2 := 1234][3 := 5678]
            [4 := e.wid][5 := e.msg][6 := e.long1][7 := e.long2]
  }

  function CreationFields(response: seq<int>, id: Option<int>): (r: seq<int>)
    requires |response| == RESPONSE_WORDS
    ensures |r| == RESPONSE_WORDS
  {
    if id.Some? then response[0 := id.value][1 := TYPE_REPLY][2 := 0][3 := 0] else response[1 := 0]
  }

  function InfoFields(response: seq<int>, wid: int, info: Option<WindowInfo>): (r: seq<int>)
    requires |response| == RESPONSE_WORDS
    ensures |r| == RESPONSE_WORDS
  {
    if 0 <= wid < WINDOW_COUNT_MAX && info.Some? then
      var f, c := info.value.frame, info.value.client;
      response[0 := wid][1 := TYPE_REPLY][2 := 1234][3 := 5678]
              [7 := f.left][8 := f.top][9 := f.width][10 := f.height]
              [13 := c.left][14 := c.top][15 := c.width][16 := c.height]
    else response
  }

  // The response fields a service fills; the window with focus is given by its next event.
  function Filled(buffer: seq<int>, response: seq<int>, world: World, event: Option<Event>): (r: seq<int>)
    requires |buffer| == MESSAGE_WORDS && |response| == RESPONSE_WORDS
    ensures |r| == RESPONSE_WORDS
  {
    var msg := AsInt(buffer[1]);
    if msg == CREATE_WINDOW then CreationFields(response, world.creation.id)
    else if msg == GET_NEXT_EVENT && event.Some? then EventFields(response, event.value)
    else if msg == GET_WINDOW_INFO then InfoFields(response, AsInt(buffer[0]), world.info)
    else response
  }

  // Whether serving the request ends or hangs the process, or the machine.
  predicate Stops(buffer: seq<int>, world: World)
    requires |buffer| == MESSAGE_WORDS
  {
    var msg := AsInt(buffer[1]);
    if msg == CREATE_WINDOW then
      || WINDOW_COUNT_MAX <= buffer[10] % 65536
      || !world.creation.parent
      || (world.creation.id.Some? && !world.creation.managed)
    else
      && msg == ASYNC_COMMAND && buffer[1] == ASYNC_COMMAND
      && (buffer[2] == 1 || (buffer[2] == 89 && world.reboots))
  }

  predicate AsksToQuit(buffer: seq<int>, world: World)
    requires |buffer| == MESSAGE_WORDS
  {
    var msg := AsInt(buffer[1]);
    || (msg == QUIT && world.windows == 0)
    || (msg == ASYNC_COMMAND && buffer[1] == ASYNC_COMMAND && buffer[2] == 88)
  }

  function PacketType(msg: int, event: bool): int {
    if !Known(msg) then TYPE_ERROR else if event then TYPE_EVENT else TYPE_REPLY
  }

  // The packet written: response words 0 and 2 to 19 with the type between, then what the
  // message buffer still has.
  function Packet(buffer: seq<int>, response: seq<int>, kind: int): (p: seq<int>)
    requires |buffer| == MESSAGE_WORDS && |response| == RESPONSE_WORDS
    ensures |p| == MESSAGE_WORDS
  {
    [response[0], kind] + response[2..20] + buffer[20..]
  }

  function After(noReply: bool, msg: int): bool {
    match Mode(msg)
    case Some(silent) => silent
    case None => noReply
  }

  // The words taken in, when there is a request at all.
  predicate Accepted(s: State, world: World)
    requires s.Valid() && world.Valid()
  {
    world.sync == ACTION_REQUEST && world.read.Some? && Received(s.buffer, world.read.value)[1] != 0
  }

  /** One dispatch for the client descriptor. The second result is the outcome, the third the
      sync flag written, the fourth whether the focus window's next event was taken. */
  function Step(s: State, world: World, event: Option<Event>): (r: (State, Outcome, Option<int>, bool))
    requires s.Valid() && world.Valid()
    ensures r.0.Valid()
  {
    if world.sync != ACTION_REQUEST || world.read.None? then
      (s.(buffer := Forget(s.buffer)), Dropped, None, false)
    else
      var buffer := Received(s.buffer, world.read.value);
      if buffer[1] == 0 then
        (s.(buffer := Forget(buffer)), Dropped, None, false)
      else if Stops(buffer, world) then
        (s.(buffer := buffer, halted := true), Stopped, None, false)
      else
        var msg := AsInt(buffer[1]);
        var taken := msg == GET_NEXT_EVENT && event.Some?;
        var response := Filled(buffer, s.response, world, event);
        var noReply := After(s.noReply, msg);
        var quit := s.quit || AsksToQuit(buffer, world);
        if noReply then
          (State(buffer, response, true, quit, s.halted), Silent, Some(ACTION_NULL), taken)
        else
          var packet := Packet(buffer, response, PacketType(msg, buffer[1] == GET_NEXT_EVENT));
          (State(Zeros(MESSAGE_WORDS), Zeros(RESPONSE_WORDS), false, quit, s.halted),
           Replied(packet), Some(ACTION_REPLY), taken)
  }

  // ---------------------------------------------------------------- the server itself

  // What polling the focus window would return.
  ghost function Offered(focus: Window?): Option<Event>
    requires focus != null ==> focus.Valid()
    reads focus, if focus != null then {focus.slots} else {}
  {
    if focus == null then None else Some(focus.State().Poll().0)
  }

  class Dispatcher {
    const buffer: array<int>      // one message buffer for requests and replies
    const response: array<int>    // what the service in progress wants to answer
    var noReply: bool
    var quit: bool
    var halted: bool
    var dispatches: nat

    ghost predicate Valid()
      reads this
    {
      buffer.Length == MESSAGE_WORDS && response.Length == RESPONSE_WORDS && buffer != response
    }

    ghost function Now(): (s: State)
      requires Valid()
      reads this, buffer, response
      ensures s.Valid()
    {
      State(buffer[..], response[..], noReply, quit, halted)
    }

    constructor ()
      ensures Valid() && fresh(buffer) && fresh(response)
      ensures Now() == State(Zeros(MESSAGE_WORDS), Zeros(RESPONSE_WORDS), false, false, false)
    {
      buffer := new int[MESSAGE_WORDS](_ => 0);
      response := new int[RESPONSE_WORDS](_ => 0);
      noReply, quit, halted, dispatches := false, false, false, 0;
    }

    method ForgetRequest()
      requires Valid()
      modifies buffer
      ensures buffer[..] == Forget(old(buffer[..]))
    {
      for i := 0 to 6
        invariant forall k :: 0 <= k < MESSAGE_WORDS ==> buffer[k] == if k < i then 0 else old(buffer[k])
      {
        buffer[i] := 0;
      }
    }

    method Receive(words: seq<int>)
      requires Valid() && |words| <= MESSAGE_WORDS
      modifies buffer
      ensures buffer[..] == Received(old(buffer[..]), words)
    {
      for i := 0 to |words|
        invariant forall k :: 0 <= k < MESSAGE_WORDS ==> buffer[k] == if k < i then words[k] else old(buffer[k])
      {
        buffer[i] := words[i];
      }
    }

    // Copies the response into the message, writes it, and clears both buffers, whether or
    // not the write succeeded.
    method SendResponse(kind: int) returns (packet: seq<int>)
      requires Valid()
      modifies buffer, response
      ensures packet == Packet(old(buffer[..]), old(response[..]), kind)
      ensures buffer[..] == Zeros(MESSAGE_WORDS) && response[..] == Zeros(RESPONSE_WORDS)
    {
      buffer[0] := response[0];
      buffer[1] := kind;
      for i := 2 to 20
        invariant response[..] == old(response[..])
        invariant buffer[0] == response[0] && buffer[1] == kind
        invariant forall k :: 2 <= k < MESSAGE_WORDS ==> buffer[k] == if k < i then response[k] else old(buffer[k])
      {
        buffer[i] := response[i];
      }
      packet := buffer[..];
      assert packet == Packet(old(buffer[..]), old(response[..]), kind);
      for i := 0 to MESSAGE_WORDS
        invariant forall k :: 0 <= k < i ==> buffer[k] == 0
      {
        buffer[i] := 0;
      }
      for i := 0 to RESPONSE_WORDS
        invariant buffer[..] == Zeros(MESSAGE_WORDS)
        invariant forall k :: 0 <= k < i ==> response[k] == 0
      {
        response[i] := 0;
      }
    }

    method ServeNextEvent(focus: Window?)
      requires Valid() && (focus != null ==> focus.Valid())
      modifies response, focus, if focus != null then {focus.slots} else {}
      ensures focus != null ==>
                focus.Valid() && focus.slots == old(focus.slots) && focus.State() == old(focus.State()).Poll().1
      ensures response[..] == if focus == null then old(response[..])
                              else EventFields(old(response[..]), old(focus.State()).Poll().0)
    {
      if focus == null {
        return;
      }
      response[0] := 0;
      response[1] := TYPE_EVENT;
      response[2] := 1234;
      response[3] := 5678;
      var e := focus.Poll();
      response[4] := e.wid;
      response[5] := e.msg;
      response[6] := e.long1;
      response[7] := e.long2;
    }

    method ServeWindowInfo(info: Option<WindowInfo>)
      requires Valid()
      modifies response
      ensures AsInt(buffer[1]) == GET_WINDOW_INFO ==>
                response[..] == InfoFields(old(response[..]), AsInt(buffer[0]), info)
    {
      var wid, code := AsInt(buffer[0]), AsInt(buffer[1]);
      if wid < 0 || wid >= WINDOW_COUNT_MAX {
        return;
      }
      if code != GET_WINDOW_INFO {
        return;
      }
      if info.None? {
        return;
      }
      var f, c := info.value.frame, info.value.client;
      response[0], response[1], response[2], response[3] := wid, TYPE_REPLY, 1234, 5678;
      response[7], response[8], response[9], response[10] := f.left, f.top, f.width, f.height;
      response[13], response[14], response[15], response[16] := c.left, c.top, c.width, c.height;
    }

    method ServeCreateWindow(c: Creation)
      requires Valid()
      modifies this`halted, response
      ensures halted ==
              (old(halted) || WINDOW_COUNT_MAX <= buffer[10] % 65536 || !c.parent || (c.id.Some? && !c.managed))
      ensures halted || response[..] == CreationFields(old(response[..]), c.id)
    {
      if buffer[10] % 65536 >= WINDOW_COUNT_MAX || !c.parent {
        halted := true;
        return;
      }
      if c.id.None? {
        response[1] := 0;
        return;
      }
      if !c.managed {
        halted := true;
        return;
      }
      response[0], response[1], response[2], response[3] := c.id.value, TYPE_REPLY, 0, 0;
    }

    method ServeAsyncCommand(reboots: bool)
      requires Valid() && !halted
      modifies this`halted, this`quit
      ensures halted == (buffer[1] == ASYNC_COMMAND && (buffer[2] == 1 || (buffer[2] == 89 && reboots)))
      ensures quit == (old(quit) || (buffer[1] == ASYNC_COMMAND && buffer[2] == 88))
    {
      if buffer[1] != ASYNC_COMMAND {
        return;
      }
      if buffer[2] == 1 {
        halted := true;
      } else if buffer[2] == 88 {
        quit := true;
      } else if buffer[2] == 89 && reboots {
        halted := true;
      }
    }

    // The dialog procedure: 0, or -1 for a code it has no case for.
    method Procedure(world: World, focus: Window?) returns (status: int)
      requires Valid() && world.Valid() && (focus != null ==> focus.Valid()) && !halted
      modifies this`noReply, this`quit, this`halted, response, focus, if focus != null then {focus.slots} else {}
      ensures halted == Stops(buffer[..], world)
      ensures buffer[..] == old(buffer[..])
      ensures focus != null ==> focus.Valid() && focus.slots == old(focus.slots)
      ensures !halted ==>
                && status == (if Known(AsInt(buffer[1])) then 0 else -1)
                && noReply == After(old(noReply), AsInt(buffer[1]))
                && quit == (old(quit) || AsksToQuit(buffer[..], world))
                && response[..] == Filled(buffer[..], old(response[..]), world, old(Offered(focus)))
      ensures focus != null ==>
                focus.State() == if AsInt(buffer[1]) == GET_NEXT_EVENT then old(focus.State()).Poll().1
                                 else old(focus.State())
    {
      hide EventFields, CreationFields, InfoFields, AsInt, Ring.Poll;
      status := 0;
      var msg := AsInt(buffer[1]);
      match msg
      case 4080 =>
        if world.windows == 0 {
          quit := true;
        }
      case 1001 =>
        ServeCreateWindow(world.creation);
        noReply := false;
      case 1000 | 1002 | 1003 | 1008 | 1009 | 2000 | 2021 | 2040 | 2041 | 2042 | 2224 =>
        noReply := false;
      case 1004 | 1005 | 1006 | 1007 | 2223 | 9099 =>
        noReply := true;
      case 2031 =>
        ServeNextEvent(focus);
        noReply := false;
      case 2222 =>
        ServeAsyncCommand(world.reboots);
        noReply := true;
      case 9093 =>
        ServeWindowInfo(world.info);
        noReply := false;
      case 2010 | 2020 | 2030 | 8080 =>
      case _ =>
        status := -1;
    }

    /** The dispatcher, for the client descriptor. */
    method Dispatch(world: World, focus: Window?) returns (outcome: Outcome, sync: Option<int>)
      requires Valid() && world.Valid() && (focus != null ==> focus.Valid()) && !halted
      modifies this, buffer, response, focus, if focus != null then {focus.slots} else {}
      ensures Valid() && dispatches == old(dispatches) + 1
      ensures focus != null ==> focus.Valid() && focus.slots == old(focus.slots)
      ensures var (after, end, flag, taken) := Step(old(Now()), world, old(Offered(focus)));
              && outcome == end && sync == flag
              && (outcome.Stopped? || Now() == after) && halted == after.halted
              && (focus != null && !halted ==>
                    focus.State() == if taken then old(focus.State()).Poll().1 else old(focus.State()))
    {
      hide Filled, Stops, AsksToQuit, Known, Mode, Packet, AsInt, Ring.Poll;
      dispatches := dispatches + 1;
      if world.sync != ACTION_REQUEST {
        ForgetRequest();
        return Dropped, None;
      }
      if world.read.None? {
        ForgetRequest();
        return Dropped, None;
      }
      Receive(world.read.value);
      if buffer[1] == 0 {
        ForgetRequest();
        return Dropped, None;
      }
      var doSendEvent := buffer[1] == GET_NEXT_EVENT;
      var status := Procedure(world, focus);
      if halted {
        return Stopped, None;
      }
      if noReply {
        return Silent, Some(ACTION_NULL);
      }
      var packet;
      if status < 0 {
        packet := SendResponse(TYPE_ERROR);
      } else if doSendEvent {
        packet := SendResponse(TYPE_EVENT);
      } else {
        packet := SendResponse(TYPE_REPLY);
      }
      return Replied(packet), Some(ACTION_REPLY);
    }
  }
}
