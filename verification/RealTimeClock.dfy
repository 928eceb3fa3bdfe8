/**
 Setting and reading the CMOS real-time clock (asm-generic/rtc.h over linux/mc146818rtc.h),
 with the DECstation variant, which keeps the real year in a register of its own and fools the
 chip with 1972 or 1973 so that it handles leap years.
 */
module RealTimeClock {
  import opened Words

  type Byte = x: int | 0 <= x < 0x100

  datatype Reg = Seconds | Minutes | Hours | DayOfMonth | Month | Year | DecYear

  /** The chip's registers; the two control registers are bit patterns. */
  datatype Registers = Registers(sec: Byte, min: Byte, hour: Byte, day: Byte, month: Byte, year: Byte, decYear: Byte,
                                 control: bv8, freqSelect: bv8)

  const RTC_DM_BINARY: bv8 := 0x04
  const RTC_SET: bv8 := 0x80
  const RTC_DIV_RESET2: bv8 := 0x70
  const RTC_24H := 0x02
  const EINVAL := 22

  /** CONFIG_MACH_DECSTATION and RTC_ALWAYS_BCD. */
  datatype Config = Config(decstation: bool, alwaysBcd: bool)

  /** The fields of struct rtc_time that the clock keeps. */
  datatype Time = Time(sec: int, min: int, hour: int, mday: int, mon: int, year: int)

  predicate ValidClock(t: Time) {
    && 0 <= t.sec < 60 && 0 <= t.min < 60 && 0 <= t.hour < 24
    && 1 <= t.mday <= 31 && 0 <= t.mon < 12
  }

  // ----- number formats -----

  /** Tens in the upper nibble, units in the lower one. */
  function Bcd2Bin(val: nat): nat { if val < 16 then val else 10 + Bcd2Bin(val - 16) }

  function BcdDigits(val: nat): nat { if val < 10 then val else 16 + BcdDigits(val - 10) }

  function Bin2Bcd(val: nat): Byte { ToByte(BcdDigits(val)) }

  lemma {:induction false} Bcd2BinFormula(val: nat)
    ensures Bcd2Bin(val) == 10 * (val / 16) + val % 16
  {
    if val >= 16 {
      Bcd2BinFormula(val - 16);
      assert (val - 16) / 16 == val / 16 - 1 && (val - 16) % 16 == val % 16;
    }
  }

  lemma {:induction false} Bin2BcdFormula(val: nat)
    ensures BcdDigits(val) == 16 * (val / 10) + val % 10
  {
    if val >= 10 {
      Bin2BcdFormula(val - 10);
      assert (val - 10) / 10 == val / 10 - 1 && (val - 10) % 10 == val % 10;
    }
  }

  lemma BcdRoundTrip(val: nat)
    requires val < 100
    ensures Bin2Bcd(val) == 16 * (val / 10) + val % 10
    ensures Bcd2Bin(Bin2Bcd(val)) == val
  {
    Bin2BcdFormula(val);
    Bcd2BinFormula(Bin2Bcd(val));
  }

  predicate UsesBcd(cfg: Config, control: bv8) {
    control & RTC_DM_BINARY == 0 || cfg.alwaysBcd
  }

  function ToByte(x: int): Byte { if 0 <= x < 0x100 then x else x % 0x100 }

  function ToUInt(x: int): nat { if 0 <= x < 0x1_0000_0000 then x else x % 0x1_0000_0000 }

  /** How a field is stored, and how it is read back. */
  function Encode(bcd: bool, val: nat): Byte { if bcd then Bin2Bcd(val) else ToByte(val) }

  function Decode(bcd: bool, val: Byte): nat { if bcd then Bcd2Bin(val) else val }

  lemma CodingRoundTrip(bcd: bool, val: nat)
    requires val < 100
    ensures Decode(bcd, Encode(bcd, val)) == val
  {
    BcdRoundTrip(val);
  }

  // ----- years -----

  predicate LeapYear(year: nat) {
    (year % 4 == 0 && year % 100 != 0) || year % 400 == 0
  }

  /** January or February of a year that is not a leap year. */
  predicate EarlyInCommonYear(t: Time) {
    !LeapYear(ToUInt(t.year) + 1900) && ToByte(t.mon + 1) < 3
  }

  /** The year the chip is given (before the fold at 100) and the DECstation's year register. */
  function ChipYear(cfg: Config, t: Time): nat {
    if !cfg.decstation then ToUInt(t.year) else if EarlyInCommonYear(t) then 73 else 72
  }

  function RealYear(t: Time): nat {
    if EarlyInCommonYear(t) then ToUInt(ToUInt(t.year) - 1) else ToUInt(t.year)
  }

  /** The chip counts years within a century. */
  function Folded(yrs: nat): nat { if yrs >= 100 then yrs - 100 else yrs }

  predicate Accepted(cfg: Config, t: Time) {
    ToUInt(t.year) <= 255 && ChipYear(cfg, t) <= 169
  }

  /** The registers after a successful set: the encoded time, the control registers as before. */
  function AfterSet(cfg: Config, r: Registers, t: Time): Registers
    requires Accepted(cfg, t)
  {
    var bcd := UsesBcd(cfg, r.control);
    var yrs := ChipYear(cfg, t);
    r.(sec := Encode(bcd, ToByte(t.sec)), min := Encode(bcd, ToByte(t.min)), hour := Encode(bcd, ToByte(t.hour)),
       day := Encode(bcd, ToByte(t.mday)), month := Encode(bcd, ToByte(t.mon + 1)),
       year := Encode(bcd, Folded(yrs)),
       decYear := if cfg.decstation then ToByte(RealYear(t)) else r.decYear)
  }

  /** The time the registers stand for. */
  function TimeOf(cfg: Config, r: Registers): Time {
    var bcd := UsesBcd(cfg, r.control);
    var year := if cfg.decstation then ToInt(Decode(bcd, r.year) + r.decYear - 72) else Decode(bcd, r.year);
    Time(Decode(bcd, r.sec), Decode(bcd, r.min), Decode(bcd, r.hour), Decode(bcd, r.day),
         Decode(bcd, r.month) - 1, if year <= 69 then year + 100 else year)
  }

  predicate Representable(cfg: Config, year: int) {
    70 <= year <= if cfg.decstation then 255 else 169
  }

  /** Except for the year, every valid time comes back as it was set. */
  lemma FieldsComeBack(cfg: Config, r: Registers, t: Time)
    requires ValidClock(t) && Accepted(cfg, t)
    ensures TimeOf(cfg, AfterSet(cfg, r, t)).(year := t.year) == t
  {
    var bcd := UsesBcd(cfg, r.control);
    CodingRoundTrip(bcd, t.sec);
    CodingRoundTrip(bcd, t.min);
    CodingRoundTrip(bcd, t.hour);
    CodingRoundTrip(bcd, t.mday);
    CodingRoundTrip(bcd, t.mon + 1);
  }

  /** The year that comes back. */
  lemma YearComesBack(cfg: Config, r: Registers, t: Time)
    requires ValidClock(t) && Accepted(cfg, t)
    ensures var y := ToUInt(t.year);
            TimeOf(cfg, AfterSet(cfg, r, t)).year ==
            if cfg.decstation && y == 0 && EarlyInCommonYear(t) then 256
            else if y <= 69 then y + 100 else y
  {
    var yrs := ChipYear(cfg, t);
    CodingRoundTrip(UsesBcd(cfg, r.control), Folded(yrs));
  }

  /**
   Setting the clock and reading it back gives the same date and time if and only if the year is one
   the clock can tell: 1970 to 2069, or 1970 to 2155 on a DECstation; in BCD and in binary mode.
   */
  lemma SetThenGet(cfg: Config, r: Registers, t: Time)
    requires ValidClock(t)
    ensures Accepted(cfg, t) && TimeOf(cfg, AfterSet(cfg, r, t)) == t <==> Representable(cfg, t.year)
  {
    if Accepted(cfg, t) {
      FieldsComeBack(cfg, r, t);
      YearComesBack(cfg, r, t);
    }
  }

  // ----- what the chip is given -----

  /** The days before a year in the Gregorian calendar, less a constant. */
  function DaysBefore(year: nat): int
    requires year > 0
  {
    365 * year + (year - 1) / 4 - (year - 1) / 100 + (year - 1) / 400
  }

  /** A leap year is a year of 366 days. */
  lemma LeapYearHas366Days(year: nat)
    requires year > 0
    ensures DaysBefore(year + 1) - DaysBefore(year) == if LeapYear(year) then 366 else 365
  {
    Crossing(year, 4);
    Crossing(year, 100);
    Crossing(year, 400);
  }

  lemma Crossing(x: nat, m: nat)
    requires x > 0 && (m == 4 || m == 100 || m == 400)
    ensures x / m - (x - 1) / m == if x % m == 0 then 1 else 0
  {
  }

  /** Which years are taken: up to 2069, or 2155 on a DECstation; a negative year is a large unsigned one. */
  lemma AcceptedExactly(cfg: Config, t: Time)
    requires -0x8000_0000 <= t.year < 0x8000_0000
    ensures Accepted(cfg, t) <==> 0 <= t.year <= if cfg.decstation then 255 else 169
  {
  }

  /** A field as the chip keeps it: two decimal digits in two nibbles, or the number itself. */
  predicate Keeps(bcd: bool, reg: Byte, val: int) {
    if bcd then reg / 16 == val / 10 && reg % 16 == val % 10 else reg == val
  }

  lemma EncodedKeeps(bcd: bool, val: nat)
    requires val < 100
    ensures Keeps(bcd, Encode(bcd, val), val)
  {
    BcdRoundTrip(val);
  }

  /** A chip is in BCD unless bit 2 of its control register is set and it is not always in BCD. */
  lemma BcdMode(cfg: Config, control: bv8)
    ensures UsesBcd(cfg, control) <==> !(control & 0x04 == 0x04 && !cfg.alwaysBcd)
  {
    assert control & 0x04 == 0x04 || control & 0x04 == 0;
  }

  lemma TimeRegisters(cfg: Config, r: Registers, t: Time)
    requires ValidClock(t) && Accepted(cfg, t)
    ensures var r' := AfterSet(cfg, r, t);
            var bcd := UsesBcd(cfg, r.control);
            Keeps(bcd, r'.sec, t.sec) && Keeps(bcd, r'.min, t.min) && Keeps(bcd, r'.hour, t.hour)
  {
    var bcd := UsesBcd(cfg, r.control);
    EncodedKeeps(bcd, t.sec);
    EncodedKeeps(bcd, t.min);
    EncodedKeeps(bcd, t.hour);
  }

  lemma DateRegisters(cfg: Config, r: Registers, t: Time)
    requires ValidClock(t) && Accepted(cfg, t)
    ensures var r' := AfterSet(cfg, r, t);
            var bcd := UsesBcd(cfg, r.control);
            Keeps(bcd, r'.day, t.mday) && Keeps(bcd, r'.month, t.mon + 1)
  {
    var bcd := UsesBcd(cfg, r.control);
    EncodedKeeps(bcd, t.mday);
    EncodedKeeps(bcd, t.mon + 1);
  }

  lemma YearRegister(cfg: Config, r: Registers, t: Time)
    requires Accepted(cfg, t) && !cfg.decstation
    ensures Keeps(UsesBcd(cfg, r.control), AfterSet(cfg, r, t).year, ToUInt(t.year) % 100)
  {
    WithinCentury(ToUInt(t.year));
    EncodedKeeps(UsesBcd(cfg, r.control), Folded(ToUInt(t.year)));
  }

  lemma WithinCentury(yrs: nat)
    requires yrs <= 169
    ensures Folded(yrs) == yrs % 100
  {
  }

  /** The registers after a set: months count from 1, and the year is within its century. */
  ghost predicate Holds(cfg: Config, r: Registers, r': Registers, t: Time) {
    var bcd := UsesBcd(cfg, r.control);
    && Keeps(bcd, r'.sec, t.sec) && Keeps(bcd, r'.min, t.min) && Keeps(bcd, r'.hour, t.hour)
    && Keeps(bcd, r'.day, t.mday) && Keeps(bcd, r'.month, t.mon + 1)
    && (!cfg.decstation ==> Keeps(bcd, r'.year, ToUInt(t.year) % 100) && r'.decYear == r.decYear)
    && r'.control == r.control && r'.freqSelect == r.freqSelect
  }

  lemma RegistersAfterSet(cfg: Config, r: Registers, t: Time)
    requires ValidClock(t) && Accepted(cfg, t)
    ensures Holds(cfg, r, AfterSet(cfg, r, t), t)
  {
    TimeRegisters(cfg, r, t);
    DateRegisters(cfg, r, t);
    if !cfg.decstation { YearRegister(cfg, r, t); }
  }

  /**
   A DECstation's chip is told 1972, a leap year, for every month of a leap year, so 29 February is
   one of its days, and 1973 for January and February of any other year, so it is not; from March
   on it is 1972 with the real year beside it.
   */
  lemma DecstationYears(cfg: Config, r: Registers, t: Time)
    requires cfg.decstation && ValidClock(t) && Accepted(cfg, t)
    ensures var r' := AfterSet(cfg, r, t);
            var y := ToUInt(t.year);
            var leap := DaysBefore(y + 1901) - DaysBefore(y + 1900) == 366;
            if leap || t.mon >= 2
            then Keeps(UsesBcd(cfg, r.control), r'.year, 72) && r'.decYear == y
            else Keeps(UsesBcd(cfg, r.control), r'.year, 73) && r'.decYear == (y + 255) % 256
  {
    LeapYearHas366Days(ToUInt(t.year) + 1900);
    RealYearByte(t);
    EncodedKeeps(UsesBcd(cfg, r.control), ChipYear(cfg, t));
  }

  lemma RealYearByte(t: Time)
    requires ToUInt(t.year) <= 255
    ensures var y := ToUInt(t.year);
            ToByte(RealYear(t)) == if EarlyInCommonYear(t) then (y + 255) % 256 else y
  {
  }

  // ----- the functions of the header -----

  class RtcTime {
    var tmSec: int
    var tmMin: int
    var tmHour: int
    var tmMday: int
    var tmMon: int
    var tmYear: int
    var tmWday: int
    var tmYday: int
    var tmIsDst: int

    function Value(): Time
      reads this
    {
      Time(tmSec, tmMin, tmHour, tmMday, tmMon, tmYear)
    }

    method FromBcd()
      modifies this`tmSec, this`tmMin, this`tmHour, this`tmMday, this`tmMon, this`tmYear
      ensures var t := old(Value());
              Value() == Time(Bcd2Bin(ToByte(t.sec)), Bcd2Bin(ToByte(t.min)), Bcd2Bin(ToByte(t.hour)),
                              Bcd2Bin(ToByte(t.mday)), Bcd2Bin(ToByte(t.mon)), Bcd2Bin(ToByte(t.year)))
    {
      tmSec := Bcd2Bin(ToByte(tmSec));
      tmMin := Bcd2Bin(ToByte(tmMin));
      tmHour := Bcd2Bin(ToByte(tmHour));
      tmMday := Bcd2Bin(ToByte(tmMday));
      tmMon := Bcd2Bin(ToByte(tmMon));
      tmYear := Bcd2Bin(ToByte(tmYear));
    }
  }

  class Clock {
    const cfg: Config
    var regs: Registers

    constructor (cfg: Config, regs: Registers)
      ensures this.cfg == cfg && this.regs == regs
    {
      this.cfg, this.regs := cfg, regs;
    }

    method CmosRead(reg: Reg) returns (val: Byte)
      ensures val == match reg
                case Seconds => regs.sec case Minutes => regs.min case Hours => regs.hour
                case DayOfMonth => regs.day case Month => regs.month case Year => regs.year case DecYear => regs.decYear
    {
      match reg
      case Seconds => val := regs.sec;
      case Minutes => val := regs.min;
      case Hours => val := regs.hour;
      case DayOfMonth => val := regs.day;
      case Month => val := regs.month;
      case Year => val := regs.year;
      case DecYear => val := regs.decYear;
    }

    method CmosWrite(val: nat, reg: Reg)
      modifies this
      ensures var v := ToByte(val);
              regs == match reg
                case Seconds => old(regs).(sec := v) case Minutes => old(regs).(min := v)
                case Hours => old(regs).(hour := v) case DayOfMonth => old(regs).(day := v)
                case Month => old(regs).(month := v) case Year => old(regs).(year := v)
                case DecYear => old(regs).(decYear := v)
    {
      var v := ToByte(val);
      match reg
      case Seconds => regs := regs.(sec := v);
      case Minutes => regs := regs.(min := v);
      case Hours => regs := regs.(hour := v);
      case DayOfMonth => regs := regs.(day := v);
      case Month => regs := regs.(month := v);
      case Year => regs := regs.(year := v);
      case DecYear => regs := regs.(decYear := v);
    }

    /** The writes, with updates inhibited and the divider held; both control registers are restored. */
    method WriteRegisters(sec: nat, min: nat, hrs: nat, day: nat, mon: nat, yrs: nat, realYrs: nat)
      modifies this
      ensures regs == old(regs).(sec := ToByte(sec), min := ToByte(min), hour := ToByte(hrs), day := ToByte(day),
                                 month := ToByte(mon), year := ToByte(yrs),
                                 decYear := if cfg.decstation then ToByte(realYrs) else old(regs).decYear)
    {
      var saveControl := regs.control;
      regs := regs.(control := saveControl | RTC_SET);
      var saveFreqSelect := regs.freqSelect;
      regs := regs.(freqSelect := saveFreqSelect | RTC_DIV_RESET2);

      if cfg.decstation {
        CmosWrite(realYrs, DecYear);
      }
      CmosWrite(yrs, Year);
      CmosWrite(mon, Month);
      CmosWrite(day, DayOfMonth);
      CmosWrite(hrs, Hours);
      CmosWrite(min, Minutes);
      CmosWrite(sec, Seconds);

      regs := regs.(control := saveControl);
      regs := regs.(freqSelect := saveFreqSelect);
    }

    /** The checks and adjustments of the year; on success the year for the chip and the DECstation's register. */
    method AdjustYear(time: RtcTime) returns (ok: bool, yrs: nat, realYrs: nat)
      ensures ok <==> Accepted(cfg, time.Value())
      ensures ok ==> yrs == Folded(ChipYear(cfg, time.Value()))
      ensures ok && cfg.decstation ==> realYrs == RealYear(time.Value())
    {
      yrs := ToUInt(time.tmYear);
      realYrs := yrs;
      if yrs > 255 {
        return false, 0, 0;
      }
      if cfg.decstation {
        var leapYr := LeapYear(yrs + 1900);
        yrs := 72;
        if !leapYr && ToByte(time.tmMon + 1) < 3 {
          realYrs := ToUInt(realYrs - 1);
          yrs := 73;
        }
      }
      if yrs > 169 {
        return false, 0, 0;
      }
      if yrs >= 100 {
        yrs := yrs - 100;
      }
      return true, yrs, realYrs;
    }

    /** Rejected years leave the chip unchanged; otherwise the time is stored and the control registers are restored. */
    method SetRtcTime(time: RtcTime) returns (ret: int)
      modifies this
      ensures Accepted(cfg, time.Value()) ==> ret == 0 && regs == AfterSet(cfg, old(regs), time.Value())
      ensures !Accepted(cfg, time.Value()) ==> ret == -22 && regs == old(regs)
    {
      var mon, day: nat := ToByte(time.tmMon + 1), ToByte(time.tmMday);
      var hrs, min, sec: nat := ToByte(time.tmHour), ToByte(time.tmMin), ToByte(time.tmSec);
      var ok, yrs, realYrs := AdjustYear(time);
      if !ok {
        return -EINVAL;
      }
      if regs.control & RTC_DM_BINARY == 0 || cfg.alwaysBcd {
        sec := Bin2Bcd(sec);
        min := Bin2Bcd(min);
        hrs := Bin2Bcd(hrs);
        day := Bin2Bcd(day);
        mon := Bin2Bcd(mon);
        yrs := Bin2Bcd(yrs);
      }
      WriteRegisters(sec, min, hrs, day, mon, yrs, realYrs);
      return 0;
    }

    method ReadRegisters(time: RtcTime)
      modifies time`tmSec, time`tmMin, time`tmHour, time`tmMday, time`tmMon, time`tmYear
      ensures time.Value() == Time(regs.sec, regs.min, regs.hour, regs.day, regs.month, regs.year)
    {
      time.tmSec := CmosRead(Seconds);
      time.tmMin := CmosRead(Minutes);
      time.tmHour := CmosRead(Hours);
      time.tmMday := CmosRead(DayOfMonth);
      time.tmMon := CmosRead(Month);
      time.tmYear := CmosRead(Year);
    }

    /** Only the fields the clock keeps are set; tmWday, tmYday and tmIsDst stay. */
    method GetRtcTime(time: RtcTime) returns (ret: int)
      modifies time`tmSec, time`tmMin, time`tmHour, time`tmMday, time`tmMon, time`tmYear
      ensures time.Value() == TimeOf(cfg, regs) && ret == 0x02
    {
      ReadRegisters(time);
      var realYear: Byte := 0;
      if cfg.decstation {
        realYear := CmosRead(DecYear);
      }
      var ctrl := regs.control;
      if ctrl & RTC_DM_BINARY == 0 || cfg.alwaysBcd {
        time.FromBcd();
      }
      if cfg.decstation {
        time.tmYear := ToInt(time.tmYear + realYear - 72);
      }
      if time.tmYear <= 69 {
        time.tmYear := time.tmYear + 100;
      }
      time.tmMon := time.tmMon - 1;
      return RTC_24H;
    }

    /** The round trip, on the chip itself. */
    method SetAndGet(time: RtcTime, read: RtcTime) returns (ret: int)
      requires ValidClock(time.Value()) && time != read
      modifies this, read
      ensures ret == 0 && read.Value() == time.Value() <==> Representable(cfg, time.tmYear)
      ensures regs.control == old(regs).control && regs.freqSelect == old(regs).freqSelect
    {
      SetThenGet(cfg, regs, time.Value());
      ret := SetRtcTime(time);
      var mode := GetRtcTime(read);
    }
  }
}
