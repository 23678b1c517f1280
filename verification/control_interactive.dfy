/**
 * The keyboard-driven sender of WorkInProgress/control_interactive.py: its
 * own copy of the control-packet builder, the per-key change of the stick,
 * command and mode values, and the reset of the command after each send.
 * Reading the terminal, the socket and the sleep between sends are left to
 * the caller: a session is driven by the sequence of keys seen at each tick.
 */
module ControlInteractive {
  import opened Wire
  import Control

  /** `create_control_packet(...)` of control_interactive.py:15-37. */
  function CreateControlPacket(c: Control.Controls): (p: Bytes)
    requires c.InByteRange()
    ensures |p| == 18
    ensures Control.ParseControlPacket(p) == Some(c)
  {
    var controlData: Bytes :=
      [0x66, c.rightX, c.rightY, c.leftY, c.leftX, c.trimV, c.trimR, c.trimL, c.command, c.mode, 0x99];
    var dataLen := |controlData|;
    var packet: Bytes := [0x63, 0x63, 0x0A, 0x00, dataLen % 256, 0x00, (dataLen / 256) % 256];
    packet + controlData
  }

  /** The duplicated builder produces the same bytes as the one in control.py. */
  lemma SameAsControlPacket(c: Control.Controls)
    requires c.InByteRange()
    ensures CreateControlPacket(c) == Control.CreateControlPacket(c)
  {
  }

  const StickMin: int := 0x2F
  const StickMax: int := 0xD0
  const StickCentre: int := 0x80
  const StickStep: int := 10

  const Neutral: int := 0x0C
  const Takeoff: int := 0x1C
  const Land: int := 0x2C

  const LowSpeed: int := 0x8C
  const HighSpeed: int := 0x84

  /** The six variables `main` keeps between ticks. */
  datatype ControlState = ControlState(rightX: int, rightY: int, leftY: int, leftX: int, command: int, mode: int)
  {
    /** The range every reachable state keeps; it makes every packet buildable. */
    predicate Valid() {
      && StickMin <= rightX <= StickMax && StickMin <= rightY <= StickMax
      && StickMin <= leftY <= StickMax && StickMin <= leftX <= StickMax
      && command in {Neutral, Takeoff, Land}
      && mode in {LowSpeed, HighSpeed}
    }

    /** The arguments `main` passes to `create_control_packet`; the trims keep their defaults. */
    function ToControls(): Control.Controls {
      Control.Controls(rightX, rightY, leftY, leftX, 0x80, 0x80, 0x80, command, mode)
    }
  }

  /** The values `main` starts with (control_interactive.py:43-48). */
  const Initial: ControlState := ControlState(StickCentre, StickCentre, StickCentre, StickCentre, Neutral, LowSpeed)

  lemma InitialIsValid()
    ensures Initial.Valid()
  {
  }

  /** `str.lower()` on a key, restricted to ASCII letters. */
  function Lower(ch: char): char {
    if 'A' <= ch <= 'Z' then (ch as int + 32) as char else ch
  }

  /** `min(0xd0, v + 10)`: the smaller of the two, whichever it is. */
  function RaiseStick(v: int): (r: int)
    ensures r <= v + StickStep && r <= StickMax
    ensures r == v + StickStep || r == StickMax
  {
    if v + StickStep < StickMax then v + StickStep else StickMax
  }

  /** `max(0x2f, v - 10)`: the larger of the two, whichever it is. */
  function LowerStick(v: int): (r: int)
    ensures r >= v - StickStep && r >= StickMin
    ensures r == v - StickStep || r == StickMin
  {
    if v - StickStep > StickMin then v - StickStep else StickMin
  }

  datatype KeyOutcome = Quit | Continue(state: ControlState)

  /** The `if`/`elif` chain of control_interactive.py:72-104 for one key read from the terminal. */
  function Key(s: ControlState, key: char): (r: KeyOutcome)
    ensures r.Quit? <==> Lower(key) == 'q'
    ensures s.Valid() && r.Continue? ==> r.state.Valid()
  {
    match Lower(key)
    case 'q' => Quit
    case 'w' => Continue(s.(leftY := RaiseStick(s.leftY)))
    case 's' => Continue(s.(leftY := LowerStick(s.leftY)))
    case 'a' => Continue(s.(leftX := LowerStick(s.leftX)))
    case 'd' => Continue(s.(leftX := RaiseStick(s.leftX)))
    case 'i' => Continue(s.(rightY := RaiseStick(s.rightY)))
    case 'k' => Continue(s.(rightY := LowerStick(s.rightY)))
    case 'j' => Continue(s.(rightX := LowerStick(s.rightX)))
    case 'l' => Continue(s.(rightX := RaiseStick(s.rightX)))
    case 't' => Continue(s.(command := Takeoff))
    case 'g' => Continue(s.(command := Land))
    case 'h' => Continue(s.(mode := if s.mode == LowSpeed then HighSpeed else LowSpeed))
    case 'r' => Continue(s.(rightX := StickCentre, rightY := StickCentre, leftX := StickCentre, leftY := StickCentre, command := Neutral))
    case _ => Continue(s)
  }

  /** The stick a key moves: 0 right X, 1 right Y, 2 left Y, 3 left X. */
  function Stick(s: ControlState, axis: nat): int
    requires axis < 4
  {
    match axis
    case 0 => s.rightX
    case 1 => s.rightY
    case 2 => s.leftY
    case 3 => s.leftX
  }

  /** The keys that push a stick up, and the stick each pushes. */
  const RaiseKeys: map<char, nat> := map['l' := 0, 'i' := 1, 'w' := 2, 'd' := 3]
  /** The keys that pull a stick down, and the stick each pulls. */
  const LowerKeys: map<char, nat> := map['j' := 0, 'k' := 1, 's' := 2, 'a' := 3]

  /**
   * From a valid state a raise key moves its stick up by 10, stopping at
   * 0xD0, and touches nothing else.
   */
  lemma RaiseKeyMovesOneStick(s: ControlState, key: char, axis: nat)
    requires s.Valid() && key in RaiseKeys && axis < 4
    ensures Key(s, key).Continue?
    ensures var t := Key(s, key).state;
      && (axis == RaiseKeys[key] ==>
            && (Stick(s, axis) + StickStep <= StickMax ==> Stick(t, axis) == Stick(s, axis) + StickStep)
            && (Stick(s, axis) + StickStep > StickMax ==> Stick(t, axis) == StickMax))
      && (axis != RaiseKeys[key] ==> Stick(t, axis) == Stick(s, axis))
      && t.command == s.command && t.mode == s.mode
  {
  }

  /**
   * From a valid state a lower key moves its stick down by 10, stopping at
   * 0x2F, and touches nothing else.
   */
  lemma LowerKeyMovesOneStick(s: ControlState, key: char, axis: nat)
    requires s.Valid() && key in LowerKeys && axis < 4
    ensures Key(s, key).Continue?
    ensures var t := Key(s, key).state;
      && (axis == LowerKeys[key] ==>
            && (Stick(s, axis) - StickStep >= StickMin ==> Stick(t, axis) == Stick(s, axis) - StickStep)
            && (Stick(s, axis) - StickStep < StickMin ==> Stick(t, axis) == StickMin))
      && (axis != LowerKeys[key] ==> Stick(t, axis) == Stick(s, axis))
      && t.command == s.command && t.mode == s.mode
  {
  }

  /**
   * `h` turns low speed into high speed and any other mode into low speed,
   * changing nothing else; pressing it twice gives back the state exactly
   * when the mode is one of the two speeds.
   */
  lemma SpeedToggleIsInvolution(s: ControlState)
    ensures Key(s, 'h') == Continue(s.(mode := if s.mode == LowSpeed then HighSpeed else LowSpeed))
    ensures Key(Key(s, 'h').state, 'h') == Continue(s) <==> s.mode in {LowSpeed, HighSpeed}
  {
  }

  /** `r` centres the sticks and clears the command but keeps the speed mode. */
  lemma ResetKey(s: ControlState)
    ensures Key(s, 'r') == Continue(ControlState(StickCentre, StickCentre, StickCentre, StickCentre, Neutral, s.mode))
  {
  }

  /** The keys the loop reacts to, in either case. */
  predicate IsBound(key: char) {
    Lower(key) in {'q', 'w', 's', 'a', 'd', 'i', 'k', 'j', 'l', 't', 'g', 'h', 'r'}
  }

  /** Any other key leaves every value as it was. */
  lemma UnboundKeyChangesNothing(s: ControlState, key: char)
    requires !IsBound(key)
    ensures Key(s, key) == Continue(s)
  {
  }

  /** control_interactive.py:113-114: after a send, a takeoff or land command falls back to neutral. */
  function AfterSend(s: ControlState): (r: ControlState)
    ensures r.command == Neutral
    ensures r.(command := s.command) == s
  {
    if s.command != Neutral then s.(command := Neutral) else s
  }

  datatype TickOutcome = Stopped | Sent(packet: Bytes, next: ControlState)

  /**
   * One pass of the loop: the key read at this tick, if any, the packet
   * sent, and the state kept for the next pass.
   */
  function Tick(s: ControlState, key: Option<char>): (r: TickOutcome)
    requires s.Valid()
    ensures r.Stopped? <==> key.Some? && Lower(key.value) == 'q'
    ensures r.Sent? ==> r.next.Valid() && r.next.command == Neutral
    ensures r.Sent? ==> CarriesValidState(r.packet)
    ensures r.Sent? ==>
      var c := Control.ParseControlPacket(r.packet);
      && c.Some?
      && c.value.rightX == r.next.rightX && c.value.rightY == r.next.rightY
      && c.value.leftY == r.next.leftY && c.value.leftX == r.next.leftX
      && c.value.trimV == 0x80 && c.value.trimR == 0x80 && c.value.trimL == 0x80
      && c.value.mode == r.next.mode
    ensures key.None? ==> r == Sent(CreateControlPacket(s.ToControls()), AfterSend(s))
    ensures r.Sent? && key.Some? ==>
      && r.next == AfterSend(Key(s, key.value).state)
      && r.packet[15] == Key(s, key.value).state.command
  {
    var pressed := if key.Some? then Key(s, key.value) else Continue(s);
    match pressed
    case Quit => Stopped
    case Continue(t) =>
      Sent(CreateControlPacket(t.ToControls()), AfterSend(t))
  }

  /**
   * `t` and `g` put takeoff or land into exactly one packet; the state kept
   * for the next tick is back to neutral.
   */
  lemma TakeoffAndLandLastOneSend(s: ControlState, key: char)
    requires s.Valid() && key in {'t', 'g'}
    ensures Tick(s, Some(key)).Sent?
    ensures Tick(s, Some(key)).packet[15] == (if key == 't' then Takeoff else Land)
    ensures Tick(s, Some(key)).next == s.(command := Neutral)
  {
  }

  /** The sticks, command and mode a sent packet carries are those of a valid state. */
  predicate CarriesValidState(p: Bytes) {
    && |p| == 18
    && StickMin <= p[8] <= StickMax && StickMin <= p[9] <= StickMax
    && StickMin <= p[10] <= StickMax && StickMin <= p[11] <= StickMax
    && p[15] in {Neutral, Takeoff, Land}
    && p[16] in {LowSpeed, HighSpeed}
  }

  /** The packets sent for a sequence of ticks, up to a quit key. */
  function Session(s: ControlState, keys: seq<Option<char>>): (sent: seq<Bytes>)
    requires s.Valid()
    ensures |sent| <= |keys|
    ensures forall i :: 0 <= i < |sent| ==> CarriesValidState(sent[i])
    decreases |keys|
  {
    if |keys| == 0 then []
    else match Tick(s, keys[0])
      case Stopped => []
      case Sent(packet, next) =>
        [packet] + Session(next, keys[1..])
  }

  /** Starting from the source's initial values, no key sequence ever makes packet building fail. */
  lemma SessionFromInitial(keys: seq<Option<char>>)
    ensures Initial.Valid()
    ensures forall i :: 0 <= i < |Session(Initial, keys)| ==> CarriesValidState(Session(Initial, keys)[i])
  {
  }
}
