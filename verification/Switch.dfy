/**
  assignment2/src/driver/sensor/switch/switch.c: debounced switch presses and echo distances, fanned out to a pair of
  queues for each subscribed key. Interrupts record their data and schedule a tasklet; a tasklet that is scheduled
  again before it has run runs once, with the latest data.
 */
module Switch {
  const QUEUE_NUM: nat := 10
  /** Presses closer than this many jiffies to the last accepted one are bounces. */
  const GAP: nat := 20

  datatype Data = Data(value: int, timestamp: nat)

  /** echo_valid_flag; 0, the value while the trigger pulse is out, is never seen outside the tasklet's lock section. */
  datatype Echo = Idle | Armed | Rising

  /** `sdata`, `udata` are switch_data_tmp and ultrasonic_data_tmp; `spend`, `upend` say that their tasklets are
      scheduled. */
  datatype Dev = Dev(inUse: seq<bool>, sq: seq<seq<Data>>, uq: seq<seq<Data>>, pre: nat, echo: Echo, start: int,
                     sdata: Data, spend: bool, udata: Data, upend: bool)
  {
    predicate Valid() { |inUse| == QUEUE_NUM && |sq| == QUEUE_NUM && |uq| == QUEUE_NUM }
    /** The press waiting for the tasklet is not a bounce. */
    predicate Accepts() { spend && sdata.timestamp > pre + GAP }
  }

  datatype Action =
    | Press(value: int, now: nat)
    | SwitchTasklet
    | EchoIsr(high: bool, ns: int, now: nat)
    | UltraTasklet
    | Get(key: int)
    | Close(key: int)
    | Recv(key: int)
    | UltraRecv(key: int)

  predicate IsKey(key: int) { 0 <= key < QUEUE_NUM }

  /** kmalloc and list_add_tail for each queue in use. */
  function FanOut(inUse: seq<bool>, qs: seq<seq<Data>>, d: Data): (r: seq<seq<Data>>)
    requires |inUse| == |qs|
    ensures |r| == |qs|
  {
    seq(|qs|, i requires 0 <= i < |qs| => if inUse[i] then qs[i] + [d] else qs[i])
  }

  /** C division, which truncates toward zero. */
  function TruncDiv(a: int, b: int): int
    requires b > 0
  {
    if a >= 0 then a / b else -((-a) / b)
  }

  function ToInt32(x: int): int { (x + 0x8000_0000) % 0x1_0000_0000 - 0x8000_0000 }

  /** Echo time in nanoseconds to centimetres. */
  function Centimetres(start: int, stop: int): int { TruncDiv(ToInt32(TruncDiv(stop - start, 1000)), 58) }

  /** As long as an int holds this many microseconds, an echo is not too long to be measured. */
  const INT_MAX: int := 0x7fff_ffff

  /** v is the echo time in whole centimetres, at 58 microseconds each, rounded down. */
  predicate InCentimetres(v: int, ns: int) { 58_000 * v <= ns < 58_000 * (v + 1) }

  /** The two divisions and the cast measure every echo from nothing to INT_MAX microseconds; of a longer one the cast
      keeps the microseconds modulo 2 to the 32, as a signed number, and the quotient is rounded toward zero. */
  lemma MeasuresEcho(start: int, stop: int)
    requires start <= stop
    ensures stop - start < 1000 * (INT_MAX + 1) ==> InCentimetres(Centimetres(start, stop), stop - start)
    ensures var v, us := Centimetres(start, stop), (stop - start) / 1000;
            exists turns: int :: var x := us - 0x1_0000_0000 * turns;
              -INT_MAX - 1 <= x <= INT_MAX && if x >= 0 then 58 * v <= x < 58 * (v + 1) else 58 * (v - 1) < x <= 58 * v
  {
    var us := (stop - start) / 1000;
    assert TruncDiv(stop - start, 1000) == us;
    var turns := (us + 0x8000_0000) / 0x1_0000_0000;
    assert ToInt32(us) == us - 0x1_0000_0000 * turns;
  }

  function Step(s: Dev, a: Action): (s': Dev)
    requires s.Valid()
    ensures s'.Valid()
  {
    match a
    case Press(value, now) => s.(sdata := Data(value, now), spend := true)
    case SwitchTasklet =>
      if !s.Accepts() then s.(spend := false)
      else
        var s1 := s.(spend := false, sq := FanOut(s.inUse, s.sq, s.sdata), pre := s.sdata.timestamp);
        if s.echo.Idle? then s1.(echo := Armed, start := 1) else s1
    case EchoIsr(high, ns, now) =>
      if s.echo.Armed? && high then s.(echo := Rising, start := ns)
      else if s.echo.Rising? && !high then s.(echo := Idle, udata := Data(Centimetres(s.start, ns), now), upend := true)
      else s
    case UltraTasklet =>
      if s.upend then s.(upend := false, uq := FanOut(s.inUse, s.uq, s.udata)) else s
    case Get(key) =>
      if !IsKey(key) || s.inUse[key] then s else s.(inUse := s.inUse[key := true])
    case Close(key) =>
      if !IsKey(key) || !s.inUse[key] then s
      else s.(inUse := s.inUse[key := false], sq := s.sq[key := []], uq := s.uq[key := []])
    case Recv(key) =>
      if !IsKey(key) || s.sq[key] == [] then s else s.(sq := s.sq[key := s.sq[key][1..]])
    case UltraRecv(key) =>
      if !IsKey(key) || s.uq[key] == [] then s else s.(uq := s.uq[key := s.uq[key][1..]])
  }

  /** After switch_init. */
  const INITIAL: Dev :=
    Dev(seq(QUEUE_NUM, _ => false), seq(QUEUE_NUM, _ => []), seq(QUEUE_NUM, _ => []), 0, Idle, 0,
        Data(0, 0), false, Data(0, 0), false)
}
