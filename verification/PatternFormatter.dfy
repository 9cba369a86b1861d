/** The pattern compiler: a pattern becomes a list of formatters that run in order. */
module PatternFormatter {
  import opened Wrappers
  import opened FormatSpecs
  import opened Numerals
  import opened IntWriter
  import opened MemoryBuffer

  // ----- messages

  /** Broken-down local time, the fraction of the second, and the offset from UTC in minutes; year counts from 1900. */
  datatype Tm = Tm(weekday: nat, month: nat, day: nat, hour: nat, minute: nat, second: nat, year: nat,
                   millis: nat, micros: nat, nanos: nat, offset: int)

  type Time = t: Tm | t.weekday < 7 && t.month < 12 witness Tm(0, 0, 1, 0, 0, 0, 70, 0, 0, 0, 0)

  datatype Msg = Msg(loggerName: string, level: string, shortLevel: string, threadId: nat, raw: string, time: Time)

  const DAYS := ["Sun", "Mon", "Tue", "Wed", "Thu", "Fri", "Sat"]
  const FULL_DAYS := ["Sunday", "Monday", "Tuesday", "Wednesday", "Thursday", "Friday", "Saturday"]
  const MONTHS := ["Jan", "Feb", "Mar", "Apr", "May", "June", "July", "Aug", "Sept", "Oct", "Nov", "Dec"]
  const FULL_MONTHS := ["January", "February", "March", "April", "May", "June",
                        "July", "August", "September", "October", "November", "December"]

  /** `fmt::pad(n, width, '0')` */
  function Pad(n: int, width: nat): string {
    Formatted(n, PLAIN.(width := width, fill := '0'))
  }

  function Join(a: int, b: int, sep: string): string {
    Pad(a, 2) + (sep + Pad(b, 2))
  }

  function JoinThree(a: nat, b: nat, c: nat, sep: string): string {
    Pad(a, 2) + (sep + (Pad(b, 2) + (sep + Pad(c, 2))))
  }

  function AmPm(t: Time): string {
    if t.hour >= 12 then "PM" else "AM"
  }

  function To12h(t: Time): nat {
    if t.hour > 12 then t.hour - 12 else t.hour
  }

  /** C division and remainder, toward zero. */
  function Quotient(n: int, d: nat): int
    requires d > 0
  {
    if n < 0 then 0 - (0 - n) / d else n / d
  }

  function Remainder(n: int, d: nat): int
    requires d > 0
  {
    if n < 0 then 0 - (0 - n) % d else n % d
  }

  /** The sign and the two parts of a UTC offset, each part with a sign of its own. */
  function ZoneText(offset: int): string {
    [if Quotient(offset, 60) >= 0 then '+' else '-'] + Join(Quotient(offset, 60), Remainder(offset, 60), ":")
  }

  function DayName(t: Time, full: bool): string {
    if full then FULL_DAYS[t.weekday] else DAYS[t.weekday]
  }

  function MonthName(t: Time, full: bool): string {
    if full then FULL_MONTHS[t.month] else MONTHS[t.month]
  }

  function DayAndClock(t: Time): string {
    DayName(t, false) + " " + MonthName(t, false) + " " + Decimal(t.day) + " "
    + JoinThree(t.hour, t.minute, t.second, ":") + " " + Decimal(t.year + 1900)
  }

  function Stamp(m: Msg): string {
    var t := m.time;
    "[" + (Decimal(t.year + 1900) + ("-" + (Pad(t.month + 1, 2) + ("-" + (Pad(t.day, 2) + (" "
    + (Pad(t.hour, 2) + (":" + (Pad(t.minute, 2) + (":" + (Pad(t.second, 2) + ("."
    + (Pad(t.millis, 3) + ("] [" + (m.loggerName + ("] [" + (m.level + ("] " + m.raw))))))))))))))))))
  }

  // ----- formatters

  datatype Formatter =
    | LoggerName | Level | ShortLevel | ThreadId | Payload
    | ShortWeekday | Weekday | ShortMonth | Month | DateAndTime | ShortYear | Year | ShortDate | MonthNumber | Day
    | Hour24 | Hour12 | Minute | Second | Millis | Micros | Nanos | Meridiem | Clock12 | HourMinute | Clock24 | Zone
    | Full
    | Character(ch: char)
    | Aggregate(str: string)

  /** What a formatter appends to the message. */
  function Show(f: Formatter, m: Msg): string {
    var t := m.time;
    match f
    case LoggerName => m.loggerName
    case Level => m.level
    case ShortLevel => m.shortLevel
    case ThreadId => Decimal(m.threadId)
    case Payload => m.raw
    case ShortWeekday => DayName(t, false)
    case Weekday => DayName(t, true)
    case ShortMonth => MonthName(t, false)
    case Month => MonthName(t, true)
    case DateAndTime => DayAndClock(t)
    case ShortYear => Pad(t.year % 100, 2)
    case Year => Decimal(t.year + 1900)
    case ShortDate => JoinThree(t.month + 1, t.day, t.year % 100, "/")
    case MonthNumber => Pad(t.month + 1, 2)
    case Day => Pad(t.day, 2)
    case Hour24 => Pad(t.hour, 2)
    case Hour12 => Pad(To12h(t), 2)
    case Minute => Pad(t.minute, 2)
    case Second => Pad(t.second, 2)
    case Millis => Pad(t.millis, 3)
    case Micros => Pad(t.micros, 6)
    case Nanos => Pad(t.nanos, 9)
    case Meridiem => AmPm(t)
    case Clock12 => Pad(To12h(t), 2) + (":" + (Pad(t.minute, 2) + (":" + (Pad(t.second, 2) + (" " + AmPm(t))))))
    case HourMinute => Join(t.hour, t.minute, ":")
    case Clock24 => JoinThree(t.hour, t.minute, t.second, ":")
    case Zone => ZoneText(t.offset)
    case Full => Stamp(m)
    case Character(ch) => [ch]
    case Aggregate(str) => str
  }

  /** Running a list of formatters in order. */
  function Run(fs: seq<Formatter>, m: Msg): string {
    if fs == [] then "" else Show(fs[0], m) + Run(fs[1..], m)
  }

  // ----- what a pattern means

  /** The flags of the pattern language. */
  function FlagOf(c: char): (r: Option<Formatter>)
    ensures r.Some? ==> !r.value.Aggregate? && !r.value.Character?
  {
    match c
    case 'n' => Some(LoggerName)
    case 'l' => Some(Level)
    case 'L' => Some(ShortLevel)
    case 't' => Some(ThreadId)
    case 'v' => Some(Payload)
    case 'a' => Some(ShortWeekday)
    case 'A' => Some(Weekday)
    case 'b' => Some(ShortMonth)
    case 'h' => Some(ShortMonth)
    case 'B' => Some(Month)
    case 'c' => Some(DateAndTime)
    case 'C' => Some(ShortYear)
    case 'Y' => Some(Year)
    case 'D' => Some(ShortDate)
    case 'x' => Some(ShortDate)
    case 'm' => Some(MonthNumber)
    case 'd' => Some(Day)
    case 'H' => Some(Hour24)
    case 'I' => Some(Hour12)
    case 'M' => Some(Minute)
    case 'S' => Some(Second)
    case 'e' => Some(Millis)
    case 'f' => Some(Micros)
    case 'F' => Some(Nanos)
    case 'p' => Some(Meridiem)
    case 'r' => Some(Clock12)
    case 'R' => Some(HourMinute)
    case 'T' => Some(Clock24)
    case 'X' => Some(Clock24)
    case 'z' => Some(Zone)
    case '+' => Some(Full)
    case _ => None
  }

  /** What `%c` contributes: unknown flags stand for themselves, percent sign included. */
  function Flagged(c: char, m: Msg): string {
    match FlagOf(c)
    case Some(f) => Show(f, m)
    case None => ['%', c]
  }

  /** Direct reading of a pattern from left to right; a lone `%` at the end means nothing. */
  function Interpret(pattern: string, m: Msg): string {
    if pattern == "" then ""
    else if pattern[0] != '%' then [pattern[0]] + Interpret(pattern[1..], m)
    else if |pattern| == 1 then ""
    else Flagged(pattern[1], m) + Interpret(pattern[2..], m)
  }

  /** Any other character behind a percent sign stands for itself, with the sign; a sign at the very end is dropped. */
  lemma UnknownStandsForItself(c: char, m: Msg)
    requires c !in "nlLtvaAbhBcCYDxmdHIMSefFprRTXz+"
    ensures Interpret(['%', c], m) == ['%', c] && Interpret("%", m) == ""
  {
    assert forall i :: 0 <= i < 31 ==> "nlLtvaAbhBcCYDxmdHIMSefFprRTXz+"[i] != c;
    assert ['%', c][2..] == "" && ['%', c] + "" == ['%', c];
  }

  // ----- compilation

  function Flush(userChars: Option<string>): seq<Formatter> {
    if userChars.Some? then [Aggregate(userChars.value)] else []
  }

  /** What `handle_flag` appends. */
  function Handled(c: char): (r: seq<Formatter>)
    ensures r != [] && forall i :: 0 <= i < |r| ==> !r[i].Aggregate?
  {
    match FlagOf(c)
    case Some(f) => [f]
    case None => [Character('%'), Character(c)]
  }

  /** The formatters for the rest of a pattern, with the literal characters seen so far. */
  function Compiled(pattern: string, userChars: Option<string>): seq<Formatter> {
    if pattern == "" then Flush(userChars)
    else if pattern[0] != '%' then
      Compiled(pattern[1..], Some((if userChars.Some? then userChars.value else "") + [pattern[0]]))
    else Flush(userChars) + if |pattern| == 1 then [] else Handled(pattern[1]) + Compiled(pattern[2..], None)
  }

  lemma {:induction false} RunConcat(a: seq<Formatter>, b: seq<Formatter>, m: Msg)
    ensures Run(a + b, m) == Run(a, m) + Run(b, m)
  {
    hide Show;
    if a == [] {
      assert [] + b == b;
    } else {
      RunConcat(a[1..], b, m);
      assert (a + b)[0] == a[0] && (a + b)[1..] == a[1..] + b;
    }
  }

  lemma RunFlush(userChars: Option<string>, m: Msg)
    ensures Run(Flush(userChars), m) == if userChars.Some? then userChars.value else ""
  {
    if userChars.Some? { assert Flush(userChars)[1..] == []; }
  }

  lemma RunHandled(c: char, m: Msg)
    ensures Run(Handled(c), m) == Flagged(c, m)
  {
    var fs := Handled(c);
    assert FlagOf(c).Some? ==> fs[1..] == [];
    assert FlagOf(c).None? ==> fs[1..] == [Character(c)] && [Character(c)][1..] == [];
    assert FlagOf(c).None? ==> Show(fs[0], m) + Run(fs[1..], m) == ['%'] + ([c] + "") == ['%', c];
  }

  lemma {:induction false} CompiledMeans(pattern: string, userChars: Option<string>, m: Msg)
    ensures Run(Compiled(pattern, userChars), m)
         == (if userChars.Some? then userChars.value else "") + Interpret(pattern, m)
    decreases |pattern|
  {
    hide Show, Flagged, Handled;
    var chars := if userChars.Some? then userChars.value else "";
    RunFlush(userChars, m);
    if pattern == "" {
    } else if pattern[0] != '%' {
      CompiledMeans(pattern[1..], Some(chars + [pattern[0]]), m);
      Regroup(chars, [pattern[0]], Interpret(pattern[1..], m));
    } else if |pattern| == 1 {
      assert Flush(userChars) + [] == Flush(userChars);
    } else {
      var c, rest := pattern[1], Compiled(pattern[2..], None);
      CompiledMeans(pattern[2..], None, m);
      RunConcat(Flush(userChars), Handled(c) + rest, m);
      RunConcat(Handled(c), rest, m);
      RunHandled(c, m);
      assert "" + Interpret(pattern[2..], m) == Interpret(pattern[2..], m);
    }
  }

  lemma Regroup(a: string, b: string, c: string)
    ensures a + b + c == a + (b + c)
  {
  }

  /** Compilation preserves meaning: running the formatters is reading the pattern. */
  lemma CompilationPreservesMeaning(pattern: string, m: Msg)
    ensures Run(Compiled(pattern, None), m) == Interpret(pattern, m)
  {
    CompiledMeans(pattern, None, m);
    assert "" + Interpret(pattern, m) == Interpret(pattern, m);
  }

  /** Aggregates are never empty and never adjacent. */
  ghost predicate Compact(fs: seq<Formatter>) {
    && (forall i :: 0 <= i < |fs| && fs[i].Aggregate? ==> fs[i].str != "")
    && (forall i :: 0 < i < |fs| ==> !(fs[i - 1].Aggregate? && fs[i].Aggregate?))
  }

  lemma {:induction false} CompiledCompact(pattern: string, userChars: Option<string>)
    requires userChars != Some("")
    ensures Compact(Compiled(pattern, userChars))
    decreases |pattern|
  {
    if pattern == "" {
    } else if pattern[0] != '%' {
      CompiledCompact(pattern[1..], Some((if userChars.Some? then userChars.value else "") + [pattern[0]]));
    } else if |pattern| > 1 {
      CompiledCompact(pattern[2..], None);
    }
  }

  lemma CompiledLiteral(p: string, userChars: Option<string>)
    requires p != "" && p[0] != '%'
    ensures Compiled(p, userChars) == Compiled(p[1..], Some((if userChars.Some? then userChars.value else "") + [p[0]]))
  {
  }

  lemma RegroupMore<T>(a: seq<T>, b: seq<T>, c: seq<T>, d: seq<T>)
    ensures a + (b + (c + d)) == a + b + c + d
  {
  }

  lemma CompiledFlag(front: seq<Formatter>, p: string, userChars: Option<string>)
    requires p != "" && p[0] == '%'
    ensures front + Compiled(p, userChars)
         == if |p| == 1 then front + Flush(userChars) else front + Flush(userChars) + Handled(p[1]) + Compiled(p[2..], None)
  {
    if |p| == 1 {
      assert Flush(userChars) + [] == Flush(userChars);
    } else {
      RegroupMore(front, Flush(userChars), Handled(p[1]), Compiled(p[2..], None));
    }
  }

  lemma CompiledEnd(front: seq<Formatter>, userChars: Option<string>)
    ensures front + Compiled("", userChars) == front + Flush(userChars)
  {
  }

  class PatternFormatter {
    var formatters: seq<Formatter>
    ghost const pattern: string

    ghost predicate Valid()
      reads this
    {
      Compact(formatters) && forall m :: Run(formatters, m) == Interpret(pattern, m)
    }

    constructor (pattern: string)
      ensures Valid() && this.pattern == pattern
    {
      this.pattern := pattern;
      formatters := [];
      new;
      CompilePattern(pattern);
      CompiledCompact(pattern, None);
      assert [] + Compiled(pattern, None) == Compiled(pattern, None);
      hide Run, Interpret, Compiled;
      forall m ensures Run(formatters, m) == Interpret(pattern, m) {
        CompilationPreservesMeaning(pattern, m);
      }
    }

    method CompilePattern(pattern: string)
      modifies `formatters
      ensures formatters == old(formatters) + Compiled(pattern, None)
    {
      hide Handled, Compiled;
      ghost var whole := formatters + Compiled(pattern, None);
      assert pattern[0..] == pattern;
      var userChars: Option<string> := None;
      var it := 0;
      while it != |pattern|
        invariant 0 <= it <= |pattern|
        invariant formatters + Compiled(pattern[it..], userChars) == whole
        decreases |pattern| - it
      {
        ghost var front, rest := formatters, pattern[it..];
        if pattern[it] == '%' {
          CompiledFlag(front, rest, userChars);
          if userChars.Some? {
            formatters := formatters + [Aggregate(userChars.value)];
            userChars := None;
          }
          it := it + 1;
          if it != |pattern| {
            HandleFlag(pattern[it]);
            assert rest[2..] == pattern[it + 1..];
          } else {
            break;
          }
        } else {
          CompiledLiteral(rest, userChars);
          if userChars.None? { userChars := Some(""); }
          userChars := Some(userChars.value + [pattern[it]]);
          assert rest[1..] == pattern[it + 1..];
        }
        it := it + 1;
      }
      CompiledEnd(formatters, userChars);
      if userChars.Some? { formatters := formatters + [Aggregate(userChars.value)]; }
    }

    method HandleFlag(flag: char)
      modifies `formatters
      ensures formatters == old(formatters) + Handled(flag)
    {
      match FlagOf(flag) {
        case Some(f) => formatters := formatters + [f];
        case None =>
          formatters := formatters + [Character('%')];
          formatters := formatters + [Character(flag)];
      }
    }

    /** Appends what the pattern means for the message, and one end of line. */
    method Format(m: Msg, formatted: string, eol: string) returns (r: string)
      requires Valid()
      ensures r == formatted + Interpret(pattern, m) + eol
    {
      r := formatted;
      for i := 0 to |formatters|
        invariant r + Run(formatters[i..], m) == formatted + Run(formatters, m)
      {
        ghost var rest := formatters[i..];
        assert Run(rest, m) == Show(formatters[i], m) + Run(rest[1..], m) && rest[1..] == formatters[i + 1..];
        Regroup(r, Show(formatters[i], m), Run(rest[1..], m));
        r := r + Show(formatters[i], m);
      }
      r := r + eol;
    }
  }

  // ----- shorthands

  lemma {:induction false} Literal(text: string, rest: string, m: Msg)
    requires '%' !in text
    ensures Interpret(text + rest, m) == text + Interpret(rest, m)
  {
    if text == "" {
      assert text + rest == rest && text + Interpret(rest, m) == Interpret(rest, m);
    } else {
      assert text[0] in text && '%' !in text[1..];
      Literal(text[1..], rest, m);
      assert (text + rest)[0] == text[0] && (text + rest)[1..] == text[1..] + rest;
      Regroup([text[0]], text[1..], Interpret(rest, m));
      assert [text[0]] + text[1..] == text;
    }
  }

  /** A flag and literal text after it. */
  lemma Chunk(p: string, c: char, text: string, rest: string, m: Msg)
    requires p == ['%', c] + text + rest && '%' !in text
    ensures Interpret(p, m) == Flagged(c, m) + (text + Interpret(rest, m))
  {
    hide Flagged;
    assert p[0] == '%' && p[1] == c && p[2..] == text + rest;
    Literal(text, rest, m);
  }

  lemma LastFlag(p: string, c: char, m: Msg)
    requires p == ['%', c]
    ensures Interpret(p, m) == Flagged(c, m)
  {
    hide Flagged;
    assert p[2..] == "";
    assert Flagged(c, m) + "" == Flagged(c, m);
  }

  /** Hours by flag h, minutes and seconds, and what follows. */
  lemma ClockMeans(h: char, text: string, tail: string, m: Msg)
    requires '%' !in text
    ensures Interpret(['%', h] + ":%M:%S" + text + tail, m)
         == Flagged(h, m) + (":" + (Pad(m.time.minute, 2) + (":" + (Pad(m.time.second, 2) + (text + Interpret(tail, m))))))
  {
    hide Interpret, Pad, AmPm, To12h, Flagged;
    ClockFlags(m);
    var seconds := ['%', 'S'] + text + tail;
    var minutes := ['%', 'M'] + ":" + seconds;
    Chunk(seconds, 'S', text, tail, m);
    Chunk(minutes, 'M', ":", seconds, m);
    assert ['%', h] + ":%M:%S" + text + tail == ['%', h] + ":" + minutes;
    Chunk(['%', h] + ":" + minutes, h, ":", minutes, m);
  }

  // What the flags of clocks and dates show.

  lemma ClockFlags(m: Msg)
    ensures Flagged('H', m) == Pad(m.time.hour, 2) && Flagged('M', m) == Pad(m.time.minute, 2)
    ensures Flagged('S', m) == Pad(m.time.second, 2)
  {
    hide Pad;
  }

  lemma ShorthandFlags(m: Msg)
    ensures Flagged('R', m) == Join(m.time.hour, m.time.minute, ":")
    ensures Flagged('T', m) == JoinThree(m.time.hour, m.time.minute, m.time.second, ":")
  {
    hide Pad;
  }

  lemma MeridiemFlags(m: Msg)
    ensures Flagged('I', m) == Pad(To12h(m.time), 2) && Flagged('p', m) == AmPm(m.time)
    ensures Flagged('r', m)
         == Pad(To12h(m.time), 2) + (":" + (Pad(m.time.minute, 2) + (":" + (Pad(m.time.second, 2) + (" " + AmPm(m.time))))))
  {
    hide Pad;
  }

  lemma DateFlags(m: Msg)
    ensures Flagged('Y', m) == Decimal(m.time.year + 1900) && Flagged('C', m) == Pad(m.time.year % 100, 2)
    ensures Flagged('m', m) == Pad(m.time.month + 1, 2) && Flagged('d', m) == Pad(m.time.day, 2)
  {
    hide Pad;
  }

  lemma ShortDateFlag(m: Msg)
    ensures Flagged('D', m) == JoinThree(m.time.month + 1, m.time.day, m.time.year % 100, "/")
  {
    hide Pad;
  }

  lemma ShortHourMinute(m: Msg)
    ensures Interpret("%R", m) == Interpret("%H:%M", m)
  {
    hide Interpret, Pad, AmPm, To12h, Flagged;
    ClockFlags(m);
    ShorthandFlags(m);
    LastFlag("%R", 'R', m);
    LastFlag("%M", 'M', m);
    Chunk("%H:%M", 'H', ":", "%M", m);
  }

  lemma ShortDates(m: Msg)
    ensures Interpret("%D", m) == Interpret("%m/%d/%C", m)
  {
    hide Interpret, Pad, AmPm, To12h, Flagged;
    DateFlags(m);
    ShortDateFlag(m);
    LastFlag("%D", 'D', m);
    LastFlag("%C", 'C', m);
    Chunk("%d/%C", 'd', "/", "%C", m);
    Chunk("%m/%d/%C", 'm', "/", "%d/%C", m);
  }

  lemma ShortClock24(m: Msg)
    ensures Interpret("%T", m) == Interpret("%H:%M:%S", m)
  {
    hide Interpret, Pad, AmPm, To12h, Flagged;
    ClockFlags(m);
    ShorthandFlags(m);
    LastFlag("%T", 'T', m);
    LastFlag("%S", 'S', m);
    Chunk("%M:%S", 'M', ":", "%S", m);
    Chunk("%H:%M:%S", 'H', ":", "%M:%S", m);
  }

  lemma ShortClock12(m: Msg)
    ensures Interpret("%r", m) == Interpret("%I:%M:%S %p", m)
  {
    hide Interpret, Pad, AmPm, To12h, Flagged;
    ClockFlags(m);
    MeridiemFlags(m);
    LastFlag("%r", 'r', m);
    LastFlag("%p", 'p', m);
    ClockMeans('I', " ", "%p", m);
    assert "%I:%M:%S %p" == ['%', 'I'] + ":%M:%S" + " " + "%p";
  }

  /** `%R`, `%T`, `%r` and `%D` are shorthands. */
  lemma TimeShorthands(m: Msg)
    ensures Interpret("%R", m) == Interpret("%H:%M", m)
    ensures Interpret("%T", m) == Interpret("%H:%M:%S", m)
    ensures Interpret("%r", m) == Interpret("%I:%M:%S %p", m)
    ensures Interpret("%D", m) == Interpret("%m/%d/%C", m)
  {
    hide *;
    ShortHourMinute(m);
    ShortClock24(m);
    ShortClock12(m);
    ShortDates(m);
  }

  lemma DateMeans(m: Msg, tail: string)
    ensures Interpret("[%Y-%m-%d " + tail, m)
         == "[" + (Decimal(m.time.year + 1900) + ("-" + (Pad(m.time.month + 1, 2) + ("-" + (Pad(m.time.day, 2) + (" " + Interpret(tail, m)))))))
  {
    hide Interpret, Pad, Decimal, Flagged;
    DateFlags(m);
    var days := ['%', 'd'] + " " + tail;
    var months := ['%', 'm'] + "-" + days;
    var years := ['%', 'Y'] + "-" + months;
    Chunk(days, 'd', " ", tail, m);
    Chunk(months, 'm', "-", days, m);
    Chunk(years, 'Y', "-", months, m);
    Literal("[", years, m);
    assert "[%Y-%m-%d " + tail == "[" + years;
  }

  lemma TailFlags(m: Msg)
    ensures Flagged('e', m) == Pad(m.time.millis, 3) && Flagged('n', m) == m.loggerName
    ensures Flagged('l', m) == m.level && Flagged('v', m) == m.raw
  {
    hide Pad;
  }

  lemma TailMeans(m: Msg)
    ensures Interpret("%e] [%n] [%l] %v", m) == Pad(m.time.millis, 3) + ("] [" + (m.loggerName + ("] [" + (m.level + ("] " + m.raw)))))
  {
    hide Interpret, Pad, Flagged;
    TailFlags(m);
    LastFlag("%v", 'v', m);
    Chunk("%l] %v", 'l', "] ", "%v", m);
    Chunk("%n] [%l] %v", 'n', "] [", "%l] %v", m);
    Chunk("%e] [%n] [%l] %v", 'e', "] [", "%n] [%l] %v", m);
  }

  lemma DocumentedPattern()
    ensures "[%Y-%m-%d %H:%M:%S.%e] [%n] [%l] %v" == "[%Y-%m-%d " + (['%', 'H'] + ":%M:%S" + "." + "%e] [%n] [%l] %v")
  {
  }

  lemma FullFlag(m: Msg)
    ensures Flagged('+', m) == Stamp(m)
  {
    hide Stamp;
  }

  /** The default format `%+` is what its documented pattern says. */
  lemma FullIsItsPattern(m: Msg)
    ensures Interpret("%+", m) == Interpret("[%Y-%m-%d %H:%M:%S.%e] [%n] [%l] %v", m)
  {
    hide Interpret, Pad, Decimal, Flagged;
    FullFlag(m);
    ClockFlags(m);
    LastFlag("%+", '+', m);
    TailMeans(m);
    ClockMeans('H', ".", "%e] [%n] [%l] %v", m);
    DateMeans(m, ['%', 'H'] + ":%M:%S" + "." + "%e] [%n] [%l] %v");
    DocumentedPattern();
  }

  // ----- what the flags tell

  lemma PadText(n: nat, width: nat)
    ensures Pad(n, width) == Rep('0', Max(0, width - |Decimal(n)|)) + Decimal(n)
  {
    hide Numeral, Surroundings;
    var spec := PLAIN.(width := width, fill := '0');
    PlainSurroundings(|Decimal(n)|, spec, "");
    assert Prefix(false, spec) == "";
    NothingAdded(Rep('0', Max(0, width - |Decimal(n)|)));
    NothingAdded(Rep('0', Max(0, width - |Decimal(n)|)) + Decimal(n));
  }

  /** Padding leaves the number readable and makes it at least that wide. */
  lemma PadDecodes(n: nat, width: nat)
    ensures Decode(Pad(n, width), 10) == n && |Pad(n, width)| == Max(width, |Decimal(n)|)
  {
    hide Numeral, Decode, Pad;
    PadText(n, width);
    DecodeNumeral(n, 10, false);
    LeadingZeros(Rep('0', Max(0, width - |Decimal(n)|)), Decimal(n), 10);
  }

  /** The number a flag stands for, and the width it is padded to. */
  function NumberOf(c: char, m: Msg): Option<(nat, nat)> {
    var t := m.time;
    match c
    case 'Y' => Some((t.year + 1900, 0))
    case 'C' => Some((t.year % 100, 2))
    case 'm' => Some((t.month + 1, 2))
    case 'd' => Some((t.day, 2))
    case 'H' => Some((t.hour, 2))
    case 'M' => Some((t.minute, 2))
    case 'S' => Some((t.second, 2))
    case 'e' => Some((t.millis, 3))
    case 'f' => Some((t.micros, 6))
    case 'F' => Some((t.nanos, 9))
    case 't' => Some((m.threadId, 0))
    case _ => None
  }

  lemma NumberFlag(c: char, m: Msg)
    requires NumberOf(c, m).Some?
    ensures var (n, width) := NumberOf(c, m).value;
            Flagged(c, m) == if width == 0 then Decimal(n) else Pad(n, width)
  {
    hide Numeral, Pad;
  }

  /** The numeric flags can be read back: their decimal value is the field they stand for, at its fixed width. */
  lemma NumbersReadBack(c: char, m: Msg)
    requires NumberOf(c, m).Some?
    ensures var (n, width) := NumberOf(c, m).value;
            Decode(Interpret(['%', c], m), 10) == n && |Interpret(['%', c], m)| == Max(width, |Decimal(n)|)
  {
    hide Numeral, Decode, Pad, Flagged, Interpret, NumberOf;
    var (n, width) := NumberOf(c, m).value;
    NumberFlag(c, m);
    LastFlag(['%', c], c, m);
    PadDecodes(n, width);
    DecodeNumeral(n, 10, false);
  }

  /** The texts of the message come out unchanged. */
  lemma TextsComeOut(m: Msg)
    ensures Interpret("%n", m) == m.loggerName && Interpret("%l", m) == m.level
    ensures Interpret("%L", m) == m.shortLevel && Interpret("%v", m) == m.raw
  {
    hide Interpret, Pad, AmPm, To12h, JoinThree, DayName, MonthName, DayAndClock, Stamp, ZoneText;
    LastFlag("%n", 'n', m);
    LastFlag("%l", 'l', m);
    LastFlag("%L", 'L', m);
    LastFlag("%v", 'v', m);
  }

  /** A full name of a day or month begins with its short name. */
  lemma ShortNames(m: Msg)
    ensures Interpret("%a", m) <= Interpret("%A", m) && Interpret("%b", m) <= Interpret("%B", m)
  {
    hide Interpret, Pad, AmPm, To12h, JoinThree, DayAndClock, Stamp, ZoneText;
    LastFlag("%a", 'a', m);
    LastFlag("%A", 'A', m);
    LastFlag("%b", 'b', m);
    LastFlag("%B", 'B', m);
  }

  /** Two letters for the same. */
  lemma Synonyms(m: Msg)
    ensures Interpret("%h", m) == Interpret("%b", m)
    ensures Interpret("%x", m) == Interpret("%D", m) && Interpret("%X", m) == Interpret("%T", m)
  {
    hide Interpret, Pad, AmPm, To12h, JoinThree, DayName, MonthName, DayAndClock, Stamp, ZoneText;
    LastFlag("%h", 'h', m);
    LastFlag("%b", 'b', m);
    LastFlag("%x", 'x', m);
    LastFlag("%D", 'D', m);
    LastFlag("%X", 'X', m);
    LastFlag("%T", 'T', m);
  }

  // ----- the twelve-hour clock

  /**
   `%I` and `%p` together give the hour back. Hours run from 1 to 12 at every hour of the day but midnight, which
   shows as 00.
   */
  lemma TwelveHourClock(m: Msg)
    requires m.time.hour < 24
    ensures var (hour, meridiem) := (Decode(Interpret("%I", m), 10), Interpret("%p", m));
            && (meridiem == "AM" || meridiem == "PM")
            && m.time.hour == (if meridiem == "PM" then hour % 12 + 12 else hour % 12)
            && (1 <= hour <= 12 <==> m.time.hour != 0)
    ensures m.time.hour == 0 ==> Interpret("%I", m) == "00"
  {
    hide Decode, Pad, Interpret;
    LastFlag("%I", 'I', m);
    LastFlag("%p", 'p', m);
    PadDecodes(To12h(m.time), 2);
    MidnightText();
  }

  lemma MidnightText()
    ensures Pad(0, 2) == "00"
  {
    hide Pad;
    PadText(0, 2);
    assert Rep('0', 1) == "0" && Decimal(0) == "0";
  }

  // ----- the UTC offset

  /** ISO 8601: a sign, two digits of hours, two of minutes. */
  function IsoOffset(offset: int): string {
    var size: nat := if offset < 0 then -offset else offset;
    [if offset < 0 then '-' else '+'] + Join(size / 60, size % 60, ":")
  }

  lemma PadStarts(n: int)
    ensures Pad(n, 2) != "" && (Pad(n, 2)[0] == '-' <==> n < 0)
  {
    hide Numeral, Surroundings;
    var digits := Decimal(Magnitude(n));
    var spec := PLAIN.(width := 2, fill := '0');
    NumeralCase(Magnitude(n), 10, false);
    PlainSurroundings(|digits|, spec, Prefix(n < 0, spec));
    if n < 0 {
      NoPadding(|digits|, spec, "-");
    }
  }

  lemma Opening(sign: char, a: int, b: int)
    ensures var text := [sign] + Join(a, b, ":");
            |text| >= 2 && text[0] == sign && (text[1] == '-' <==> a < 0)
  {
    hide Pad;
    PadStarts(a);
  }

  /** `%z` writes the offset as ISO 8601 does exactly when it is not negative. */
  lemma ZoneIsIso(offset: int)
    ensures ZoneText(offset) == IsoOffset(offset) <==> offset >= 0
  {
    hide Join;
    var h, size: nat := Quotient(offset, 60), if offset < 0 then -offset else offset;
    Opening(if h >= 0 then '+' else '-', h, Remainder(offset, 60));
    Opening(if offset < 0 then '-' else '+', size / 60, size % 60);
  }

  /** Behind the sign the parts of a negative offset carry theirs once more. */
  lemma ZoneOfNewYork(m: Msg)
    requires m.time.offset == -300
    ensures Interpret("%z", m) == "--5:00"
  {
    hide Interpret, Pad;
    LastFlag("%z", 'z', m);
    MinusFive();
    MidnightText();
  }

  lemma MinusFive()
    ensures Pad(-5, 2) == "-5"
  {
    hide Surroundings;
    var spec := PLAIN.(width := 2, fill := '0');
    assert Decimal(5) == "5" && Prefix(true, spec) == "-" && Magnitude(-5) == 5;
    PlainSurroundings(1, spec, "-");
    NoPadding(1, spec, "-");
    assert "-" + "5" + [] == "-5";
  }

  // ----- the date and time of the C library

  /** `%c` is the date and time of its comment: names, the day unpadded, the clock, the year. */
  lemma DateAndTimeIsItsPattern(m: Msg)
    ensures Interpret("%c", m) == Interpret("%a %b ", m) + Decimal(m.time.day) + Interpret(" %T %Y", m)
  {
    hide *;
    NamesMean(m);
    ClockAndYearMean(m);
    DateAndTimeShows(m);
  }

  lemma NamesMean(m: Msg)
    ensures Interpret("%a %b ", m) == DayName(m.time, false) + (" " + (MonthName(m.time, false) + " "))
  {
    hide Interpret, Pad, Decimal, JoinThree, DayName, MonthName, DayAndClock, Stamp, ZoneText, AmPm, To12h;
    NothingLeft(m);
    Chunk("%b ", 'b', " ", "", m);
    Chunk("%a %b ", 'a', " ", "%b ", m);
    assert " " + "" == " ";
  }

  lemma ClockAndYearMean(m: Msg)
    ensures Interpret(" %T %Y", m)
         == " " + (JoinThree(m.time.hour, m.time.minute, m.time.second, ":") + (" " + Decimal(m.time.year + 1900)))
  {
    hide Interpret, Pad, Decimal, JoinThree, DayName, MonthName, DayAndClock, Stamp, ZoneText, AmPm, To12h;
    LastFlag("%Y", 'Y', m);
    Chunk("%T %Y", 'T', " ", "%Y", m);
    Literal(" ", "%T %Y", m);
    assert " %T %Y" == " " + "%T %Y";
  }

  lemma DateAndTimeShows(m: Msg)
    ensures var t := m.time;
            var (names, clock) := (DayName(t, false) + (" " + (MonthName(t, false) + " ")),
                                   " " + (JoinThree(t.hour, t.minute, t.second, ":") + (" " + Decimal(t.year + 1900))));
            Interpret("%c", m) == names + Decimal(t.day) + clock
  {
    hide Interpret, Pad, Decimal, JoinThree, DayName, MonthName, Stamp, ZoneText, AmPm, To12h;
    LastFlag("%c", 'c', m);
    SevenParts(DayName(m.time, false), MonthName(m.time, false), Decimal(m.time.day),
               JoinThree(m.time.hour, m.time.minute, m.time.second, ":"), Decimal(m.time.year + 1900));
  }

  lemma SevenParts(a: string, b: string, c: string, d: string, e: string)
    ensures a + " " + b + " " + c + " " + d + " " + e == (a + (" " + (b + " "))) + c + (" " + (d + (" " + e)))
  {
  }

  lemma NothingLeft(m: Msg)
    ensures Interpret("", m) == ""
  {
  }
}
