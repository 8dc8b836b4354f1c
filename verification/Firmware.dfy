/** The sensor board: a tick-driven parking simulation and the 48-byte frame it shows. */
module Firmware {
  import opened Text
  import opened Sessions
  import opened Wire
  import Decimal

  const PARK_DURATION_SEC: nat := 10
  const WAIT_BETWEEN_SEC: nat := 5
  const TWO_TO_THE_32: nat := 0x1_0000_0000

  type uint32 = n: nat | n < TWO_TO_THE_32

  datatype Vehicle = Vehicle(id: string, lat: string, lon: string, city: string)

  const NUM_VEHICLES: nat := 4

  datatype AppState = ParkingStart | ParkingActive | ParkingEnd | ParkingWait

  // ----- the frame -----

  /** Byte `k` of a text field: `snprintf` into zeroed memory keeps at most `size - 1`
      bytes of the text, up to its NUL, and leaves zeros behind it. */
  function FieldByte(s: string, size: nat, k: nat): char {
    if k + 1 < size && k < Find(s, '\0') then s[k] else '\0'
  }

  function FrameByte(kind: char, v: Vehicle, i: nat): char {
    if i == 0 then kind
    else if i < 16 then FieldByte(v.id, 15, i - 1)
    else if i < 24 then FieldByte(v.lat, 8, i - 16)
    else if i < 32 then FieldByte(v.lon, 8, i - 24)
    else FieldByte(v.city, 16, i - 32)
  }

  function FrameBytes(kind: char, v: Vehicle): (b: seq<char>)
    ensures |b| == FRAME_SIZE
  {
    seq(FRAME_SIZE, i requires 0 <= i < FRAME_SIZE => FrameByte(kind, v, i))
  }

  lemma FieldReadsBack(field: string, s: string)
    requires |s| < |field| && '\0' !in s
    requires forall k | 0 <= k < |field| :: field[k] == FieldByte(s, |field|, k)
    ensures CStr(field) == s && field[|field| - 1] == '\0'
  {
    FindAbsent(s, '\0');
    assert field[..|s|] == s;
    FindIs(field, '\0', |s|);
  }

  /** A text without NULs in a field of `size` bytes: what fits of it, then zeros. */
  lemma FieldBytes(s: string, size: nat, k: nat)
    requires '\0' !in s && k < size
    ensures FieldByte(s, size, k) == if k < |s| && k < size - 1 then s[k] else '\0'
  {
    FindAbsent(s, '\0');
  }

  /** Where the frame keeps the vehicle's texts. */
  lemma FrameLayout(kind: char, v: Vehicle)
    requires |v.id| < 15 && |v.lat| < 8 && |v.lon| < 8 && |v.city| < 16
    requires '\0' !in v.id && '\0' !in v.lat && '\0' !in v.lon && '\0' !in v.city
    ensures var b := FrameBytes(kind, v);
            && b[0] == kind && Holds(b[1..16], v.id) && Holds(b[16..24], v.lat)
            && Holds(b[24..32], v.lon) && Holds(b[32..48], v.city)
  {
    var b := FrameBytes(kind, v);
    FieldHolds(b[1..16], v.id, 15);
    FieldHolds(b[16..24], v.lat, 8);
    FieldHolds(b[24..32], v.lon, 8);
    FieldHolds(b[32..48], v.city, 16);
  }

  lemma FieldHolds(field: seq<char>, s: string, size: nat)
    requires '\0' !in s && |s| < size <= |field|
    requires forall k | 0 <= k < size :: field[k] == FieldByte(s, size, k)
    ensures Holds(field, s)
  {
    forall k | 0 <= k < size ensures field[k] == if k < |s| && k < size - 1 then s[k] else '\0' {
      FieldBytes(s, size, k);
    }
    assert field[..|s|] == s;
  }

  lemma AlreadyTerminated(b: seq<char>)
    requires |b| == FRAME_SIZE && b[15] == b[23] == b[31] == b[47] == '\0'
    ensures Terminated(b) == b
  {
  }

  /** The I2C reader recovers the vehicle's fields from the frame bytes. */
  lemma FrameFields(kind: char, v: Vehicle)
    requires |v.id| < 15 && |v.lat| < 8 && |v.lon| < 8 && |v.city| < 16
    requires '\0' !in v.id && '\0' !in v.lat && '\0' !in v.lon && '\0' !in v.city
    ensures FieldsOf(FrameBytes(kind, v)) == Frame(kind, v.id, v.lat, v.lon, v.city)
  {
    var b := FrameBytes(kind, v);
    FieldReadsBack(b[1..16], v.id);
    FieldReadsBack(b[16..24], v.lat);
    FieldReadsBack(b[24..32], v.lon);
    FieldReadsBack(b[32..48], v.city);
    AlreadyTerminated(b);
  }

  predicate PlainChar(c: char) {
    Decimal.IsDigit(c) || 'a' <= c <= 'z' || 'A' <= c <= 'Z' || c == '-' || c == '.'
  }

  predicate PlainText(s: string, size: nat) {
    0 < |s| < size && forall i | 0 <= i < |s| :: PlainChar(s[i])
  }

  lemma PlainTextIsSafe(s: string, size: nat)
    requires PlainText(s, size)
    ensures '\0' !in s && '|' !in s && ',' !in s && '\r' !in s && '\n' !in s
  {
  }

  /** A vehicle whose fields fit the frame and the line format. */
  predicate VehicleOk(v: Vehicle) {
    && PlainText(v.id, 15) && PlainText(v.lat, 8) && PlainText(v.lon, 8) && PlainText(v.city, 16)
    && Decimal.IsDigit(v.lat[0]) && Decimal.IsDigit(v.lon[0])
  }

  /** The text fields of a vehicle's frame. */
  function VehicleFrame(kind: char, v: Vehicle): Frame {
    Frame(kind, v.id, v.lat, v.lon, v.city)
  }

  lemma VehicleFrameSendable(kind: char, v: Vehicle)
    requires KnownKind(kind) && VehicleOk(v)
    ensures FieldsOf(FrameBytes(kind, v)) == VehicleFrame(kind, v)
    ensures Sendable(VehicleFrame(kind, v))
  {
    PlainTextIsSafe(v.id, 15);
    PlainTextIsSafe(v.lat, 8);
    PlainTextIsSafe(v.lon, 8);
    PlainTextIsSafe(v.city, 16);
    FrameFields(kind, v);
    Decimal.StartsWithDigit(v.lat);
    Decimal.StartsWithDigit(v.lon);
  }

  /** What the rest of the system relies on about a vehicle table. */
  ghost predicate TableOk(vs: seq<Vehicle>) {
    && |vs| == NUM_VEHICLES
    && (forall i | 0 <= i < |vs| :: VehicleOk(vs[i]))
    && (forall i, j | 0 <= i < j < |vs| :: vs[i].id != vs[j].id)
  }

  /** The table the board is built with. */
  function Car(v: nat): Vehicle
    requires v < NUM_VEHICLES
  {
    match v
    case 0 => Vehicle("CAR-001", "32.0853", "34.7817", "TelAviv")
    case 1 => Vehicle("CAR-002", "31.7683", "35.2137", "Jerusalem")
    case 2 => Vehicle("CAR-003", "32.7940", "34.9896", "Haifa")
    case _ => Vehicle("CAR-004", "31.2518", "34.7913", "BeerSheva")
  }

  function Cars(): seq<Vehicle> {
    seq(NUM_VEHICLES, v requires 0 <= v < NUM_VEHICLES => Car(v))
  }

  lemma CarsNumbered(v: nat)
    requires v < NUM_VEHICLES
    ensures |Car(v).id| == 7 && Car(v).id[6] == ['1', '2', '3', '4'][v]
    ensures PlainText(Car(v).id, 15)
  {
  }

  lemma CarsLocated(v: nat)
    requires v < NUM_VEHICLES
    ensures PlainText(Car(v).lat, 8) && Decimal.IsDigit(Car(v).lat[0])
    ensures PlainText(Car(v).lon, 8) && Decimal.IsDigit(Car(v).lon[0])
  {
  }

  lemma CarsHoused(v: nat)
    requires v < NUM_VEHICLES
    ensures PlainText(Car(v).city, 16)
  {
  }

  lemma CarsOk()
    ensures TableOk(Cars())
  {
    forall v: nat | v < NUM_VEHICLES
      ensures VehicleOk(Cars()[v])
      ensures |Cars()[v].id| == 7 && Cars()[v].id[6] == ['1', '2', '3', '4'][v]
    {
      CarsNumbered(v);
      CarsLocated(v);
      CarsHoused(v);
    }
  }

  // ----- the state machine -----

  /** The board's variables; `shownKind` and `shown` are what the frame was built from. */
  datatype Board = Board(state: AppState, secCount: uint32, vehicleIdx: uint32, shownKind: char, shown: nat)

  const POWER_ON: Board := Board(ParkingStart, 0, 0, MSG_START, 0)

  function Inc(n: uint32): uint32 {
    (n + 1) % TWO_TO_THE_32
  }

  function Build(b: Board, kind: char): Board {
    b.(shownKind := kind, shown := b.vehicleIdx % NUM_VEHICLES)
  }

  /** One handled tick of the main loop. */
  function Tick(b: Board): Board {
    match b.state
    case ParkingStart =>
      Build(b, MSG_START).(secCount := 0, state := ParkingActive)
    case ParkingActive =>
      var c := Inc(b.secCount);
      b.(secCount := c, state := if c >= PARK_DURATION_SEC then ParkingEnd else ParkingActive)
    case ParkingEnd =>
      Build(b, MSG_END).(secCount := 0, state := ParkingWait)
    case ParkingWait =>
      var c := Inc(b.secCount);
      if c >= WAIT_BETWEEN_SEC then
        b.(secCount := 0, vehicleIdx := Inc(b.vehicleIdx), state := ParkingStart)
      else
        b.(secCount := c)
  }

  function AfterTicks(n: nat): Board {
    if n == 0 then POWER_ON else Tick(AfterTicks(n - 1))
  }

  // ----- the closed form -----

  /** One vehicle: a tick to start, ten to park, one to end, five to wait. */
  const CYCLE: nat := 17
  const START_TICKS: nat := 11

  /** The vehicle cycle whose frame is shown after `n` ticks. */
  function CycleShown(n: nat): nat {
    if n == 0 then 0 else (n - 1) / 17
  }

  function KindShown(n: nat): char {
    if n == 0 || (n - 1) % 17 < START_TICKS then MSG_START else MSG_END
  }

  function StateAt(m: nat): AppState {
    if m == 0 then ParkingStart
    else if m < START_TICKS then ParkingActive
    else if m == START_TICKS then ParkingEnd
    else ParkingWait
  }

  function SecAt(m: nat): nat {
    if m == 0 then 0 else if m <= START_TICKS then m - 1 else m - START_TICKS - 1
  }

  /** The board after `q` whole cycles and `m` ticks of the next. */
  function At(q: nat, m: nat): Board
    requires m < CYCLE
  {
    Board(StateAt(m), SecAt(m), q % TWO_TO_THE_32,
          if m == 0 && q > 0 then MSG_END else if m <= START_TICKS then MSG_START else MSG_END,
          if m == 0 && q > 0 then (q - 1) % 4 else q % 4)
  }

  /** The table size divides 2^32, so the wrapped index still points at the right row. */
  lemma WrapKeepsOrder(q: nat)
    ensures (q % TWO_TO_THE_32) % NUM_VEHICLES == q % NUM_VEHICLES
    ensures Inc(q % TWO_TO_THE_32) == (q + 1) % TWO_TO_THE_32
  {
  }

  lemma TickAt(q: nat, m: nat)
    requires m < CYCLE
    ensures Tick(At(q, m)) == if m + 1 == CYCLE then At(q + 1, 0) else At(q, m + 1)
  {
    WrapKeepsOrder(q);
  }

  lemma DivStep(n: nat)
    requires n > 0
    ensures n % 17 == 0 ==> (n - 1) / 17 == n / 17 - 1 && (n - 1) % 17 == 16
    ensures n % 17 != 0 ==> (n - 1) / 17 == n / 17 && (n - 1) % 17 == n % 17 - 1
  {
  }

  lemma {:induction false} AfterTicksAt(n: nat)
    ensures AfterTicks(n) == At(n / 17, n % 17)
  {
    if n > 0 {
      AfterTicksAt(n - 1);
      TickAt((n - 1) / 17, (n - 1) % 17);
      DivStep(n);
    }
  }

  /** Period 17 for the state and counter, the frame one tick behind, the vehicle
      order undisturbed when the 32-bit index wraps. */
  lemma ClosedForm(n: nat)
    ensures AfterTicks(n).state == StateAt(n % 17)
    ensures AfterTicks(n).secCount == SecAt(n % 17)
    ensures AfterTicks(n).vehicleIdx == (n / 17) % TWO_TO_THE_32
    ensures AfterTicks(n).shownKind == KindShown(n)
    ensures AfterTicks(n).shown == CycleShown(n) % NUM_VEHICLES
  {
    AfterTicksAt(n);
    if n > 0 {
      DivStep(n);
    }
  }

  // ----- the code -----

  class Controller {
    var parkState: AppState
    var secCount: uint32
    var vehicleIdx: uint32
    var tick: bool           // set by the timer interrupt, cleared by the main loop
    const frame: array<char>
    const vehicles: seq<Vehicle>

    ghost var shownKind: char
    ghost var shown: nat
    ghost var handled: nat   // ticks the main loop has handled
    ghost var fired: nat     // timer interrupts so far

    /** The board as the specification sees it. */
    ghost function Abs(): Board
      reads `parkState, `secCount, `vehicleIdx, `shownKind, `shown
    {
      Board(parkState, secCount, vehicleIdx, shownKind, shown)
    }

    /** The frame in memory is the one last built. */
    ghost predicate FrameShown()
      reads frame, `shownKind, `shown
    {
      && frame.Length == FRAME_SIZE && |vehicles| == NUM_VEHICLES && shown < NUM_VEHICLES
      && frame[..] == FrameBytes(shownKind, vehicles[shown])
    }

    /** Everything but the pending tick. */
    ghost predicate Settled()
      reads frame, `parkState, `secCount, `vehicleIdx, `shownKind, `shown, `handled
    {
      FrameShown() && Abs() == AfterTicks(handled)
    }

    ghost predicate Valid()
      reads this, frame
    {
      Settled() && handled + (if tick then 1 else 0) <= fired
    }

    constructor (vehicles: seq<Vehicle>)
      requires |vehicles| == NUM_VEHICLES
      ensures this.vehicles == vehicles
      ensures Valid() && handled == fired == 0 && !tick && fresh(frame)
    {
      parkState, secCount, vehicleIdx, tick := ParkingStart, 0, 0, false;
      this.vehicles := vehicles;
      frame := new char[FRAME_SIZE](_ => '\0');
      shownKind, shown, handled, fired := MSG_START, 0, 0, 0;
      new;
      BuildFrame(MSG_START);
    }

    /** `snprintf` of one field into the zeroed frame. */
    method PutField(at: nat, size: nat, text: string)
      requires frame.Length == FRAME_SIZE && size > 0 && at + size <= FRAME_SIZE
      requires forall i | at <= i < at + size :: frame[i] == '\0'
      modifies frame
      ensures forall i | at <= i < at + size :: frame[i] == FieldByte(text, size, i - at)
      ensures forall i | 0 <= i < at || at + size <= i < FRAME_SIZE :: frame[i] == old(frame[i])
    {
      var len := Find(text, '\0');
      var k := 0;
      while k + 1 < size && k < len
        invariant k <= len && k < size
        invariant forall i | 0 <= i < at || at + k <= i < FRAME_SIZE :: frame[i] == old(frame[i])
        invariant forall i | at <= i < at + k :: frame[i] == text[i - at]
      {
        frame[at + k] := text[k];
        k := k + 1;
      }
    }

    method FillFrame(kind: char, v: Vehicle)
      requires frame.Length == FRAME_SIZE
      modifies frame
      ensures frame[..] == FrameBytes(kind, v)
    {
      forall i | 0 <= i < FRAME_SIZE {
        frame[i] := '\0';
      }
      frame[0] := kind;
      PutField(1, 15, v.id);
      PutField(16, 8, v.lat);
      PutField(24, 8, v.lon);
      PutField(32, 16, v.city);
    }

    method BuildFrame(kind: char)
      requires frame.Length == FRAME_SIZE && |vehicles| == NUM_VEHICLES
      modifies frame, `shownKind, `shown
      ensures shownKind == kind && shown == vehicleIdx % NUM_VEHICLES
      ensures FrameShown()
    {
      var v := vehicles[vehicleIdx % NUM_VEHICLES];
      shownKind, shown := kind, vehicleIdx % NUM_VEHICLES;
      FillFrame(kind, v);
    }

    /** The one-second timer interrupt.  A tick not yet handled is not counted twice. */
    method TimerElapsed()
      requires Valid()
      modifies `tick, `fired
      ensures Valid() && tick && handled == old(handled) && fired == old(fired) + 1
    {
      tick := true;
      fired := fired + 1;
    }

    /** The two states that switch the frame. */
    method SwitchFrame(kind: char, next: AppState)
      requires FrameShown()
      modifies frame, `parkState, `secCount, `shownKind, `shown
      ensures FrameShown()
      ensures Abs() == Build(old(Abs()), kind).(secCount := 0, state := next)
    {
      BuildFrame(kind);
      secCount := 0;
      parkState := next;
    }

    /** The two states that count seconds; the frame stays. */
    method CountSecond()
      requires parkState.ParkingActive? || parkState.ParkingWait?
      modifies `parkState, `secCount, `vehicleIdx
      ensures Abs() == Tick(old(Abs()))
    {
      secCount := (secCount + 1) % TWO_TO_THE_32;
      if parkState.ParkingActive? {
        if secCount >= PARK_DURATION_SEC {
          parkState := ParkingEnd;
        }
      } else if secCount >= WAIT_BETWEEN_SEC {
        secCount := 0;
        vehicleIdx := (vehicleIdx + 1) % TWO_TO_THE_32;
        parkState := ParkingStart;
      }
    }

    /** The tick-driven switch. */
    method HandleTick()
      requires Settled()
      modifies frame, `parkState, `secCount, `vehicleIdx, `shownKind, `shown, `handled
      ensures Settled() && handled == old(handled) + 1
    {
      match parkState {
        case ParkingStart => SwitchFrame(MSG_START, ParkingActive);
        case ParkingActive => CountSecond();
        case ParkingEnd => SwitchFrame(MSG_END, ParkingWait);
        case ParkingWait => CountSecond();
      }
      handled := handled + 1;
    }

    /** One round of the main loop. */
    method Loop()
      requires Valid()
      modifies this, frame
      ensures Valid() && !tick && fired == old(fired)
      ensures handled == old(handled) + if old(tick) then 1 else 0
    {
      if !tick {
        return;
      }
      tick := false;
      HandleTick();
    }
  }
}
