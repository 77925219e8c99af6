/** The sensor: debounced smoke and tamper inputs, the battery check and the test button, all
    writing one ZoneStatus word, and the gate to low power. */
module Sensor {
  import opened Debounce

  type U16 = n: int | 0 <= n < 0x1_0000
  type U8 = n: int | 0 <= n < 0x100

  /** Bits of ZoneStatus (section 8.2 of the Zigbee Cluster Library Specification). */
  const ALARM1: bv16 := 0x0001
  const TAMPER: bv16 := 0x0004
  const BATTERY: bv16 := 0x0008
  const TEST: bv16 := 0x0100
  const RESTORE_NOTIFY: bv16 := 0x0020
  /** All bits but the first four. */
  const REST: bv16 := 0xFEF2

  const VK_SW1: U8 := 1

  datatype Option<T> = None | Some(value: T)

  // ---------------------------------------------------------------- the battery reading

  const MAX_VBAT_MV := 9000
  const MIN_VBAT_MV := 7000

  /** `voltage_raw * 3 - voltage_factor`, cut to 16 bits. */
  function Divided(raw: U16, factor: U8): U16 {
    if raw * 3 < factor then 0 else (raw * 3 - factor) % 0x1_0000
  }

  /** To whole tenths of a volt. */
  function Tenths(mv: U16): U16 {
    if mv % 100 >= 50 then mv / 100 + 1 else mv / 100
  }

  function Level(mv: int): U8 {
    if mv > MIN_VBAT_MV then
      var level := (mv - MIN_VBAT_MV) / ((MAX_VBAT_MV - MIN_VBAT_MV) / 0xC8);
      if level > 0xC8 then 0xC8 else level
    else 0
  }

  function Rounded(raw: U16, factor: U8): U16 {
    Tenths(Divided(raw, factor)) * 100
  }

  /** Rounding picks the nearest tenth of a volt and never leaves 16 bits. */
  lemma RoundsToNearest(mv: U16)
    ensures mv - 50 < Tenths(mv) * 100 <= mv + 50 && Tenths(mv) * 100 < 0x1_0000
  {
  }

  /** The reported level is zero exactly for the readings that set the battery bit, whatever the
      ADC delivers and even if the product leaves 16 bits. */
  lemma LowIffLevelZero(raw: U16, factor: U8)
    ensures Rounded(raw, factor) <= MIN_VBAT_MV <==> Level(Rounded(raw, factor)) == 0
  {
  }

  /** The level counts tenths of a hundredth of a volt above 7 V, up to 200 half percents at 9 V. */
  lemma LevelIs(mv: U16)
    ensures mv <= 7000 ==> Level(mv) == 0
    ensures 7000 < mv <= 9000 ==> 10 * Level(mv) <= mv - 7000 < 10 * Level(mv) + 10
    ensures 9000 <= mv ==> Level(mv) == 200
  {
    assert 7000 < mv ==> 10 * ((mv - 7000) / 10) <= mv - 7000 < 10 * ((mv - 7000) / 10) + 10;
  }

  // ---------------------------------------------------------------- what the handlers do

  datatype Action = OnOff | OffOn | Toggle | NoAction
  datatype Command = On | Off | Flip

  /** `action` is the switch action the device starts with; `factor` the ADC calibration. */
  datatype Config = Config(action: Action, factor: U8)

  datatype Event =
    | Sample(smoke: bool, tamper: bool, joined: bool)
    | Battery(raw: U16)
    | Press(key: U8, joined: bool)
    | Release(key: U8, joined: bool)
    | Configure(action: Action)

  /** The status word by its bits. */
  datatype Bits = Bits(alarm: bool, tamper: bool, battery: bool, test: bool, rest: bv16)

  const INITIAL := Bits(false, false, false, false, RESTORE_NOTIFY)

  /** `told` is the status in the last notification, `sent` the on/off commands so far, `action`
      the switch-action attribute. */
  datatype Device = Device(smoke: Counter, tamper: Counter, status: Bits, told: Option<Bits>, sent: seq<Command>,
                           action: Action, tenths: U8, level: U8)

  function Start(g: Config): Device {
    Device(1, 1, INITIAL, None, [], g.action, 0, 0)
  }

  /** Set the attribute and send a notification with it. */
  function Tell(d: Device, status: Bits): Device {
    d.(status := status, told := Some(status))
  }

  /** `cmdOnOff` */
  function CommandFor(action: Action, on: bool): seq<Command> {
    match action
    case OnOff => [if on then On else Off]
    case OffOn => [if on then Off else On]
    case Toggle => [Flip]
    case NoAction => []
  }

  /** The attribute is read again for each command. */
  function SmokeSample(d: Device, active: bool, joined: bool): Device {
    var t := d.(smoke := Step(d.smoke, active));
    if joined && (Rises(d.smoke, active) || Falls(d.smoke, active)) then
      Tell(t.(sent := d.sent + CommandFor(d.action, active)), d.status.(alarm := active))
    else t
  }

  function TamperSample(d: Device, active: bool, joined: bool): Device {
    var t := d.(tamper := Step(d.tamper, active));
    if joined && (Rises(d.tamper, active) || Falls(d.tamper, active)) then Tell(t, d.status.(tamper := active))
    else t
  }

  function BatteryCheck(g: Config, d: Device, raw: U16): Device {
    var mv := Rounded(raw, g.factor);
    var t := d.(tenths := Tenths(Divided(raw, g.factor)) % 0x100, level := Level(mv));
    var low := mv <= MIN_VBAT_MV;
    if low == d.status.battery then t else Tell(t, d.status.(battery := low))
  }

  function Key(d: Device, key: U8, pressed: bool, joined: bool): Device {
    if key == VK_SW1 && joined then Tell(d, d.status.(test := pressed)) else d
  }

  function Handle(g: Config, d: Device, e: Event): Device {
    match e
    case Sample(smoke, tamper, joined) => TamperSample(SmokeSample(d, smoke, joined), tamper, joined)
    case Battery(raw) => BatteryCheck(g, d, raw)
    case Press(key, joined) => Key(d, key, true, joined)
    case Release(key, joined) => Key(d, key, false, joined)
    case Configure(action) => d.(action := action)
  }

  function Run(g: Config, es: seq<Event>): Device
    decreases |es|
  {
    if es == [] then Start(g) else Handle(g, Run(g, es[..|es| - 1]), es[|es| - 1])
  }

  /** What a battery check leaves, from the reading: the nearest tenth of a volt, the battery bit below
      7.05 V, and the level that goes with the rounded voltage, full from 8.95 V on. */
  lemma BatteryShown(g: Config, d: Device, raw: U16)
    ensures var t, mv := Handle(g, d, Battery(raw)), if raw * 3 < g.factor then 0 else raw * 3 - g.factor;
            && (mv < 25_550 ==> mv - 50 < 100 * t.tenths <= mv + 50)
            && (mv < 0x1_0000 ==> (t.status.battery <==> mv < 7050))
            && (mv < 0x1_0000 ==> (t.level == 0 <==> mv < 7050) && (8950 <= mv ==> t.level == 200))
            && (7050 <= mv < 8950 ==> mv - 7050 < 10 * t.level <= mv - 6950)
  {
    var mv := Divided(raw, g.factor);
    RoundsToNearest(mv);
    if 100 * Tenths(mv) < 0x1_0000 {
      LevelIs(100 * Tenths(mv));
      LevelSteps(Tenths(mv));
    }
  }

  /** A tenth of a volt is ten levels. */
  lemma LevelSteps(tenths: nat)
    ensures 70 <= tenths <= 90 ==> Level(100 * tenths) == 10 * (tenths - 70)
  {
    if 70 < tenths <= 90 {
      assert 100 * tenths - 7000 == 10 * (10 * (tenths - 70));
    }
  }

  // ---------------------------------------------------------------- the sleep gate

  /** `smoke_idle`, which is true while an input is being debounced. */
  predicate Debouncing(d: Device) {
    (d.smoke != 1 && d.smoke != LIMIT) || (d.tamper != 1 && d.tamper != LIMIT)
  }

  /** `app_task` enters low power. */
  predicate Sleeps(d: Device, bdbIdle: bool, buttonBusy: bool) {
    bdbIdle && !buttonBusy && !Debouncing(d)
  }

  // ---------------------------------------------------------------- the code itself

  function WithBit(status: bv16, bit: bv16, on: bool): bv16 {
    if on then status | bit else status & !bit
  }

  predicate Has(status: bv16, bit: bv16) {
    status & bit != 0
  }

  /** Setting one bit leaves the others alone. */
  lemma BitAlone(s: bv16, bit: bv16, on: bool, other: bv16)
    requires bit & other == 0
    ensures WithBit(s, bit, on) & other == s & other
  {
  }

  lemma BitTaken(s: bv16, bit: bv16, on: bool)
    requires bit != 0
    ensures Has(WithBit(s, bit, on), bit) == on
  {
  }

  function BitsOf(s: bv16): Bits {
    Bits(Has(s, ALARM1), Has(s, TAMPER), Has(s, BATTERY), Has(s, TEST), s & REST)
  }

  lemma AlarmBit(s: bv16, on: bool)
    ensures BitsOf(WithBit(s, ALARM1, on)) == BitsOf(s).(alarm := on)
  {
    BitTaken(s, ALARM1, on);
    BitAlone(s, ALARM1, on, TAMPER);
    BitAlone(s, ALARM1, on, BATTERY);
    BitAlone(s, ALARM1, on, TEST);
    BitAlone(s, ALARM1, on, REST);
  }

  lemma TamperBit(s: bv16, on: bool)
    ensures BitsOf(WithBit(s, TAMPER, on)) == BitsOf(s).(tamper := on)
  {
    BitTaken(s, TAMPER, on);
    BitAlone(s, TAMPER, on, ALARM1);
    BitAlone(s, TAMPER, on, BATTERY);
    BitAlone(s, TAMPER, on, TEST);
    BitAlone(s, TAMPER, on, REST);
  }

  lemma BatteryBit(s: bv16, on: bool)
    ensures BitsOf(WithBit(s, BATTERY, on)) == BitsOf(s).(battery := on)
  {
    BitTaken(s, BATTERY, on);
    BitAlone(s, BATTERY, on, ALARM1);
    BitAlone(s, BATTERY, on, TAMPER);
    BitAlone(s, BATTERY, on, TEST);
    BitAlone(s, BATTERY, on, REST);
  }

  lemma TestBit(s: bv16, on: bool)
    ensures BitsOf(WithBit(s, TEST, on)) == BitsOf(s).(test := on)
  {
    BitTaken(s, TEST, on);
    BitAlone(s, TEST, on, ALARM1);
    BitAlone(s, TEST, on, TAMPER);
    BitAlone(s, TEST, on, BATTERY);
    BitAlone(s, TEST, on, REST);
  }

  lemma InitialBits()
    ensures BitsOf(RESTORE_NOTIFY) == INITIAL
  {
  }

  function MapBits(o: Option<bv16>): Option<Bits> {
    match o
    case None => None
    case Some(s) => Some(BitsOf(s))
  }

  /** The statics of the application, and the ZoneStatus attribute. */
  class App {
    const g: Config
    var smokeDebounce: Counter
    var tamperDebounce: Counter
    var zoneStatus: bv16
    var told: Option<bv16>
    var sent: seq<Command>
    var action: Action
    var tenths: U8
    var level: U8

    function View(): Device
      reads this
    {
      Device(smokeDebounce, tamperDebounce, BitsOf(zoneStatus), MapBits(told), sent, action, tenths, level)
    }

    constructor (g: Config)
      ensures this.g == g && View() == Start(g)
    {
      this.g := g;
      smokeDebounce, tamperDebounce, zoneStatus, told, sent := 1, 1, RESTORE_NOTIFY, None, [];
      action, tenths, level := g.action, 0, 0;
      InitialBits();
    }

    /** Set the attribute, then send a notification with it. */
    method NotifyStatus(status: bv16)
      modifies this`zoneStatus, this`told
      ensures View() == Tell(old(View()), BitsOf(status))
    {
      zoneStatus, told := status, Some(status);
    }

    /** Read the attribute, set or clear one bit, and tell. */
    method MarkAlarm(on: bool)
      modifies this`zoneStatus, this`told
      ensures View() == Tell(old(View()), old(View()).status.(alarm := on))
    {
      AlarmBit(zoneStatus, on);
      NotifyStatus(if on then zoneStatus | ALARM1 else zoneStatus & !ALARM1);
    }

    method MarkTamper(on: bool)
      modifies this`zoneStatus, this`told
      ensures View() == Tell(old(View()), old(View()).status.(tamper := on))
    {
      TamperBit(zoneStatus, on);
      NotifyStatus(if on then zoneStatus | TAMPER else zoneStatus & !TAMPER);
    }

    method MarkBattery(on: bool)
      modifies this`zoneStatus, this`told
      ensures View() == Tell(old(View()), old(View()).status.(battery := on))
    {
      BatteryBit(zoneStatus, on);
      NotifyStatus(if on then zoneStatus | BATTERY else zoneStatus & !BATTERY);
    }

    method MarkTest(on: bool)
      modifies this`zoneStatus, this`told
      ensures View() == Tell(old(View()), old(View()).status.(test := on))
    {
      TestBit(zoneStatus, on);
      NotifyStatus(if on then zoneStatus | TEST else zoneStatus & !TEST);
    }

    method BatteryIsMarked() returns (r: bool)
      ensures r == View().status.battery
    {
      r := zoneStatus & BATTERY != 0;
    }

    method CmdOnOff(smokeState: bool)
      modifies this`sent
      ensures sent == old(sent) + CommandFor(action, smokeState)
    {
      match action {
        case OnOff => sent := sent + [if smokeState then On else Off];
        case OffOn => sent := sent + [if smokeState then Off else On];
        case Toggle => sent := sent + [Flip];
        case NoAction =>
      }
    }

    /** Lines 93-138 of `smoke_handler`. */
    method SampleSmoke(active: bool, joined: bool)
      modifies this
      ensures View() == SmokeSample(old(View()), active, joined)
    {
      if active {
        if smokeDebounce != LIMIT {
          smokeDebounce := smokeDebounce + 1;
          if smokeDebounce == LIMIT && joined {
            CmdOnOff(true);
            MarkAlarm(true);
          }
        }
      } else if smokeDebounce != 1 {
        smokeDebounce := smokeDebounce - 1;
        if smokeDebounce == 1 && joined {
          CmdOnOff(false);
          MarkAlarm(false);
        }
      }
    }

    /** Lines 149-192 of `smoke_handler`. */
    method SampleTamper(active: bool, joined: bool)
      modifies this
      ensures View() == TamperSample(old(View()), active, joined)
    {
      if active {
        if tamperDebounce != LIMIT {
          tamperDebounce := tamperDebounce + 1;
          if tamperDebounce == LIMIT && joined {
            MarkTamper(true);
          }
        }
      } else if tamperDebounce != 1 {
        tamperDebounce := tamperDebounce - 1;
        if tamperDebounce == 1 && joined {
          MarkTamper(false);
        }
      }
    }

    /** `smoke_handler` */
    method SmokeHandler(smoke: bool, tamper: bool, joined: bool)
      modifies this
      ensures View() == Handle(g, old(View()), Sample(smoke, tamper, joined))
    {
      SampleSmoke(smoke, joined);
      SampleTamper(tamper, joined);
    }

    /** `smoke_idle` */
    method SmokeIdle() returns (r: bool)
      ensures r == Debouncing(View())
    {
      if (smokeDebounce != 1 && smokeDebounce != LIMIT) || (tamperDebounce != 1 && tamperDebounce != LIMIT) {
        return true;
      }
      r := false;
    }

    /** `app_task` from the sampling on; says whether it enters low power. */
    method AppTask(smoke: bool, tamper: bool, joined: bool, bdbIdle: bool, buttonBusy: bool) returns (sleeps: bool)
      modifies this
      ensures View() == Handle(g, old(View()), Sample(smoke, tamper, joined))
      ensures sleeps == Sleeps(View(), bdbIdle, buttonBusy)
    {
      SmokeHandler(smoke, tamper, joined);
      sleeps := false;
      if bdbIdle && !buttonBusy {
        var busy := SmokeIdle();
        sleeps := !busy;
      }
    }

    /** Lines 86-106 of `batteryCb`: the voltage in millivolts, rounded, and in tenths. */
    method Measure(raw: U16) returns (voltage: U8, voltage9v: U16)
      ensures voltage9v == Rounded(raw, g.factor) && voltage == Tenths(Divided(raw, g.factor)) % 0x100
    {
      if raw * 3 < g.factor {
        voltage9v := 0;
      } else {
        voltage9v := (raw * 3 - g.factor) % 0x1_0000;
      }
      RoundsToNearest(voltage9v);
      if voltage9v % 100 >= 50 {
        voltage9v := voltage9v / 100;
        voltage9v := voltage9v + 1;
        voltage := voltage9v % 0x100;
        voltage9v := voltage9v * 100 % 0x1_0000;
      } else {
        voltage9v := voltage9v / 100;
        voltage := voltage9v % 0x100;
        voltage9v := voltage9v * 100 % 0x1_0000;
      }
    }

    /** `get_battery_level` */
    method GetBatteryLevel(batteryMv: U16) returns (r: U8)
      ensures r == Level(batteryMv)
    {
      var batteryLevel := 0;
      if batteryMv > MIN_VBAT_MV {
        batteryLevel := (batteryMv - MIN_VBAT_MV) / ((MAX_VBAT_MV - MIN_VBAT_MV) / 0xC8);
        if batteryLevel > 0xC8 {
          batteryLevel := 0xC8;
        }
      }
      r := batteryLevel;
    }

    /** Lines 125-148 of `batteryCb`. */
    method JudgeBattery(low: bool)
      modifies this`zoneStatus, this`told
      ensures View() == if low == old(View()).status.battery then old(View())
                        else Tell(old(View()), old(View()).status.(battery := low))
    {
      var marked := BatteryIsMarked();
      if low {
        if !marked {
          MarkBattery(true);
        }
      } else if marked {
        MarkBattery(false);
      }
    }

    /** `batteryCb` */
    method BatteryCb(raw: U16)
      modifies this
      ensures View() == Handle(g, old(View()), Battery(raw))
    {
      var voltage, voltage9v := Measure(raw);
      level := GetBatteryLevel(voltage9v);
      tenths := voltage;
      JudgeBattery(voltage9v <= MIN_VBAT_MV);
    }

    /** The switch-action attribute is written. */
    method SetSwitchAction(action: Action)
      modifies this`action
      ensures View() == Handle(g, old(View()), Configure(action))
    {
      this.action := action;
    }

    /** `keyScan_keyPressedCB`, as far as it concerns the status. */
    method KeyPressed(keyCode: U8, joined: bool)
      modifies this
      ensures View() == Handle(g, old(View()), Press(keyCode, joined))
    {
      if keyCode != 0xFF && keyCode == VK_SW1 && joined {
        MarkTest(true);
      }
    }

    /** `keyScan_keyReleasedCB`, as far as it concerns the status. */
    method KeyReleased(keyCode: U8, joined: bool)
      modifies this
      ensures View() == Handle(g, old(View()), Release(keyCode, joined))
    {
      if keyCode != 0xFF && keyCode == VK_SW1 && joined {
        MarkTest(false);
      }
    }
  }
}
