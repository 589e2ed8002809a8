/**
 * Applying a runtime configuration (`server/runtime_config.go`): every field of the request is
 * validated into a copy, and the copy is stored once.
 */
module RuntimeConfig {
  import opened Common
  import opened Text

  datatype Settings = Settings(
    monthRotate: int, monthRotateTime: string, monthRotateTimezone: string, interval: real,
    includeNics: string, excludeNics: string, includeMountpoints: string,
    memoryIncludeCache: bool, enableGPU: bool)

  /** A request; absent fields keep their value. */
  datatype Params = Params(
    revision: Uint64,
    monthRotate: Option<int>, monthRotateTime: Option<string>, monthRotateTimezone: Option<string>,
    interval: Option<real>,
    includeNics: Option<string>, excludeNics: Option<string>, includeMountpoints: Option<string>,
    memoryIncludeCache: Option<bool>, enableGPU: Option<bool>)

  datatype ResetClock = ResetClock(day: int, time: string, zone: string)

  /** The settings in force and the reset clock that network accounting was told. */
  datatype Runtime = Runtime(settings: Settings, clock: ResetClock)

  /** What the clock parser, the zone database and the network accounting answer. */
  datatype Env = Env(
    clockOk: string -> bool, zoneOk: string -> bool, stopOk: bool, startOk: bool, listOk: bool, configureOk: bool)

  datatype ApplyError = BadDay | BadClock | UnknownZone | BadInterval | TooLong | ControlCharacters | NetworkFailed

  // ---------------------------------------------------------------- text fields

  predicate ValidText(value: string, maxLength: nat) {
    ByteLength(Trim(value)) <= maxLength && 0 as char !in Trim(value) && '\r' !in Trim(value) && '\n' !in Trim(value)
  }

  method ValidateText(value: string, maxLength: nat) returns (r: Result<string, ApplyError>)
    ensures r.Ok? <==> ValidText(value, maxLength)
    ensures r.Ok? ==> r.value == Trim(value)
    ensures r.Err? ==> r.error == if ByteLength(Trim(value)) > maxLength then TooLong else ControlCharacters
  {
    var trimmed := Trim(value);
    if ByteLength(trimmed) > maxLength {
      return Err(TooLong);
    }
    if 0 as char in trimmed || '\r' in trimmed || '\n' in trimmed {
      return Err(ControlCharacters);
    }
    return Ok(trimmed);
  }

  // ---------------------------------------------------------------- what applying means

  predicate ValidOptionalText(value: Option<string>, maxLength: nat) {
    value.Some? ==> ValidText(value.value, maxLength)
  }

  predicate ValidClock(config: Params, env: Env) {
    && (config.monthRotate.Some? ==> 0 <= config.monthRotate.value <= 31)
    && ValidOptionalText(config.monthRotateTime, 16)
    && (config.monthRotateTime.Some? ==>
          Trim(config.monthRotateTime.value) == "" || env.clockOk(Trim(config.monthRotateTime.value)))
    && ValidOptionalText(config.monthRotateTimezone, 64)
    && (config.monthRotateTimezone.Some? ==>
          Trim(config.monthRotateTimezone.value) == "" || env.zoneOk(Trim(config.monthRotateTimezone.value)))
  }

  predicate ValidParams(config: Params, env: Env) {
    && ValidClock(config, env)
    && (config.interval.Some? ==> 1.0 <= config.interval.value <= 3600.0)
    && ValidOptionalText(config.includeNics, 1024)
    && ValidOptionalText(config.excludeNics, 1024)
    && ValidOptionalText(config.includeMountpoints, 2048)
  }

  function Choose<T>(value: Option<T>, default: T): T {
    if value.Some? then value.value else default
  }

  function ChooseText(value: Option<string>, default: string): string {
    if value.Some? then Trim(value.value) else default
  }

  function Overlay(current: Settings, config: Params): Settings {
    Settings(
      Choose(config.monthRotate, current.monthRotate),
      ChooseText(config.monthRotateTime, current.monthRotateTime),
      ChooseText(config.monthRotateTimezone, current.monthRotateTimezone),
      Choose(config.interval, current.interval),
      ChooseText(config.includeNics, current.includeNics),
      ChooseText(config.excludeNics, current.excludeNics),
      ChooseText(config.includeMountpoints, current.includeMountpoints),
      Choose(config.memoryIncludeCache, current.memoryIncludeCache),
      Choose(config.enableGPU, current.enableGPU))
  }

  predicate NetworkChanged(current: Settings, next: Settings) {
    next.monthRotate != current.monthRotate || next.monthRotateTime != current.monthRotateTime
    || next.monthRotateTimezone != current.monthRotateTimezone
    || next.includeNics != current.includeNics || next.excludeNics != current.excludeNics
  }

  predicate NetworkAccepts(next: Settings, env: Env) {
    if next.monthRotate == 0 then env.stopOk else env.startOk && env.listOk && env.configureOk
  }

  function ClockOf(s: Settings): ResetClock {
    ResetClock(s.monthRotate, s.monthRotateTime, s.monthRotateTimezone)
  }

  /**
   * All or nothing for the settings: they become the overlay exactly when every given field is valid
   * and network accounting accepts its part. The reset clock is set before the accounting answers.
   */
  ghost predicate Applies(before: Runtime, config: Params, env: Env, after: Runtime, r: Result<bool, ApplyError>) {
    var next := Overlay(before.settings, config);
    var network := NetworkChanged(before.settings, next);
    && (r.Ok? <==> ValidParams(config, env) && (network ==> NetworkAccepts(next, env)))
    && (r.Ok? ==> after.settings == next && (r.value <==> next != before.settings))
    && (r.Err? ==> after.settings == before.settings && (r.error == NetworkFailed <==> ValidParams(config, env)))
    && after.clock == if ValidParams(config, env) && network then ClockOf(next) else before.clock
  }

  /**
   * A failed request leaves the settings as they were, but not always the reset clock: the clock
   * moves exactly when the request was valid and asked for another one, and only the network part failed.
   */
  lemma FailedApplyKeepsClockExactly(
    before: Runtime, config: Params, env: Env, after: Runtime, r: Result<bool, ApplyError>)
    requires Applies(before, config, env, after, r) && r.Err?
    ensures after.settings == before.settings
    ensures after.clock == before.clock
       <==> !ValidParams(config, env) || ClockOf(Overlay(before.settings, config)) == before.clock
  {
  }

  // ---------------------------------------------------------------- field by field

  /** A named text must fit its limit and hold neither NUL nor an end of line. */
  lemma TextsOfAcceptedFit(before: Runtime, config: Params, env: Env, after: Runtime, r: Result<bool, ApplyError>)
    requires Applies(before, config, env, after, r) && r.Ok?
    ensures forall p | p in [(config.monthRotateTime, 16), (config.monthRotateTimezone, 64), (config.includeNics, 1024),
                             (config.excludeNics, 1024), (config.includeMountpoints, 2048)] && p.0.Some? ::
      && ByteLength(Trim(p.0.value)) <= p.1
      && forall c | c in Trim(p.0.value) :: c as int != 0 && c as int != 13 && c as int != 10
    ensures config.monthRotate.Some? ==> 0 <= config.monthRotate.value <= 31
    ensures config.interval.Some? ==> 1.0 <= config.interval.value <= 3600.0
    ensures config.monthRotateTime.Some? && Trim(config.monthRotateTime.value) != "" ==>
              env.clockOk(Trim(config.monthRotateTime.value))
    ensures config.monthRotateTimezone.Some? && Trim(config.monthRotateTimezone.value) != "" ==>
              env.zoneOk(Trim(config.monthRotateTimezone.value))
  {
    hide Trim, ByteLength, Overlay, NetworkChanged, NetworkAccepts;
  }

  /** Conversely a request is only refused for one of these reasons, or because network accounting refused it. */
  lemma RefusedForAReason(before: Runtime, config: Params, env: Env, after: Runtime, r: Result<bool, ApplyError>)
    requires Applies(before, config, env, after, r) && r.Err?
    requires config.monthRotate.Some? ==> 0 <= config.monthRotate.value <= 31
    requires config.interval.Some? ==> 1.0 <= config.interval.value <= 3600.0
    requires forall p | p in [(config.monthRotateTime, 16), (config.monthRotateTimezone, 64),
                              (config.includeNics, 1024), (config.excludeNics, 1024),
                              (config.includeMountpoints, 2048)] && p.0.Some? ::
      && ByteLength(Trim(p.0.value)) <= p.1
      && forall c | c in Trim(p.0.value) :: c as int != 0 && c as int != 13 && c as int != 10
    requires forall clock: string :: env.clockOk(clock)
    requires forall zone: string :: env.zoneOk(zone)
    ensures r.error == NetworkFailed
    ensures var day := if config.monthRotate.Some? then config.monthRotate.value else before.settings.monthRotate;
      && (if day == 0 then !env.stopOk else !env.startOk || !env.listOk || !env.configureOk)
      && after.clock.day == day
      && (after.clock.time == if config.monthRotateTime.Some? then Trim(config.monthRotateTime.value)
                              else before.settings.monthRotateTime)
      && (after.clock.zone == if config.monthRotateTimezone.Some? then Trim(config.monthRotateTimezone.value)
                              else before.settings.monthRotateTimezone)
  {
    hide Trim, ByteLength, NetworkChanged;
    assert (config.monthRotateTime, 16) in [(config.monthRotateTime, 16), (config.monthRotateTimezone, 64),
        (config.includeNics, 1024), (config.excludeNics, 1024), (config.includeMountpoints, 2048)];
  }

  /** After success every setting that the request names has its value, text trimmed; the others are as before. */
  lemma AcceptedRequestByField(before: Runtime, config: Params, env: Env, after: Runtime, r: Result<bool, ApplyError>)
    requires Applies(before, config, env, after, r) && r.Ok?
    ensures forall p | p in [
      (config.monthRotateTime, before.settings.monthRotateTime, after.settings.monthRotateTime),
      (config.monthRotateTimezone, before.settings.monthRotateTimezone, after.settings.monthRotateTimezone),
      (config.includeNics, before.settings.includeNics, after.settings.includeNics),
      (config.excludeNics, before.settings.excludeNics, after.settings.excludeNics),
      (config.includeMountpoints, before.settings.includeMountpoints, after.settings.includeMountpoints)] ::
      if p.0.Some? then p.2 == Trim(p.0.value) else p.2 == p.1
    ensures after.settings.monthRotate ==
      if config.monthRotate.Some? then config.monthRotate.value else before.settings.monthRotate
    ensures after.settings.interval ==
      if config.interval.Some? then config.interval.value else before.settings.interval
    ensures after.settings.memoryIncludeCache ==
      if config.memoryIncludeCache.Some? then config.memoryIncludeCache.value else before.settings.memoryIncludeCache
    ensures after.settings.enableGPU ==
      if config.enableGPU.Some? then config.enableGPU.value else before.settings.enableGPU
    ensures r.value <==> after.settings != before.settings
  {
    hide Trim, ValidParams, NetworkChanged, NetworkAccepts;
  }

  /**
   * Network accounting is asked exactly when one of five settings changes, and is told their new clock: a request
   * that changes none of them succeeds though accounting would fail, and leaves the clock alone.
   */
  lemma NetworkIsAskedExactly(before: Runtime, config: Params, env: Env, after: Runtime, r: Result<bool, ApplyError>)
    requires Applies(before, config, env, after, r) && r.Ok?
    ensures var (s, t) := (before.settings, after.settings);
      if || t.monthRotate != s.monthRotate || t.monthRotateTime != s.monthRotateTime
         || t.monthRotateTimezone != s.monthRotateTimezone || t.includeNics != s.includeNics
         || t.excludeNics != s.excludeNics
      then
        && (t.monthRotate == 0 ==> env.stopOk)
        && (t.monthRotate != 0 ==> env.startOk && env.listOk && env.configureOk)
        && after.clock == ResetClock(t.monthRotate, t.monthRotateTime, t.monthRotateTimezone)
      else after.clock == before.clock
  {
    hide Overlay, ValidParams;
  }

  /** A request of other settings is never refused by network accounting. */
  lemma OtherSettingsNeedNoNetwork(
    before: Runtime, config: Params, env: Env, after: Runtime, r: Result<bool, ApplyError>)
    requires Applies(before, config, env, after, r)
    requires config.monthRotate.None? && config.monthRotateTime.None? && config.monthRotateTimezone.None?
    requires config.includeNics.None? && config.excludeNics.None?
    ensures r != Err(NetworkFailed)
  {
    hide Trim, ValidParams;
  }

  const UNSET := Params(0, None, None, None, None, None, None, None, None, None)

  /** A valid change of the reset day whose accounting does not start: an error, yet the clock has moved. */
  lemma FailedApplyMovesClock() returns (before: Runtime, config: Params, env: Env, after: Runtime)
    ensures Applies(before, config, env, after, Err(NetworkFailed))
    ensures after.settings == before.settings && after.clock != before.clock
  {
    var settings := Settings(1, "", "", 3.0, "", "", "", false, false);
    before, config := Runtime(settings, ClockOf(settings)), UNSET.(monthRotate := Some(2));
    env := Env(_ => true, _ => true, true, false, true, true);
    after := before.(clock := ResetClock(2, "", ""));
  }

  function Later<T>(first: Option<T>, second: Option<T>): Option<T> {
    if second.Some? then second else first
  }

  /** One request that says what two requests say one after the other. */
  function Combined(a: Params, b: Params): Params {
    Params(
      b.revision, Later(a.monthRotate, b.monthRotate), Later(a.monthRotateTime, b.monthRotateTime),
      Later(a.monthRotateTimezone, b.monthRotateTimezone), Later(a.interval, b.interval),
      Later(a.includeNics, b.includeNics), Later(a.excludeNics, b.excludeNics),
      Later(a.includeMountpoints, b.includeMountpoints), Later(a.memoryIncludeCache, b.memoryIncludeCache),
      Later(a.enableGPU, b.enableGPU))
  }

  lemma CombinedIsValid(a: Params, b: Params, env: Env)
    requires ValidParams(a, env) && ValidParams(b, env)
    ensures ValidParams(Combined(a, b), env)
  {
    hide Trim, ValidText;
  }

  lemma OverlaysCombine(s: Settings, a: Params, b: Params)
    ensures Overlay(Overlay(s, a), b) == Overlay(s, Combined(a, b))
  {
    hide Trim;
  }

  /**
   * Two accepted requests, one after the other, leave the settings that their combination leaves at once. So no
   * request undoes what another one said about a different field.
   */
  lemma RequestsCombine(before: Runtime, a: Params, b: Params, env: Env, middle: Runtime, after: Runtime,
                        first: Result<bool, ApplyError>, second: Result<bool, ApplyError>)
    requires Applies(before, a, env, middle, first) && first.Ok?
    requires Applies(middle, b, env, after, second) && second.Ok?
    ensures ValidParams(Combined(a, b), env)
    ensures after.settings == Overlay(before.settings, Combined(a, b))
  {
    hide ValidParams, Overlay, NetworkChanged, NetworkAccepts, Combined;
    CombinedIsValid(a, b, env);
    OverlaysCombine(before.settings, a, b);
  }

  // ---------------------------------------------------------------- the reset clock

  /** A report, the second writer of the clock: with a reset day it stores the clock of the settings in force. */
  function Reported(r: Runtime): Runtime {
    if r.settings.monthRotate != 0 then r.(clock := ClockOf(r.settings)) else r
  }

  predicate InStep(r: Runtime) {
    r.clock == ClockOf(r.settings)
  }

  /**
   * What each writer does for a clock that may be out of step with the settings. A report brings it into step exactly
   * when there is a reset day. An accepted request does so exactly when it changes a network field: asking for the
   * settings that are in force anyway does not. A failed one leaves it in step exactly when it was, unless the
   * request was valid and changed a network field; then exactly when it asked for the clock of the settings in force.
   */
  lemma ClockInStepExactly(before: Runtime, config: Params, env: Env, after: Runtime, r: Result<bool, ApplyError>)
    requires Applies(before, config, env, after, r)
    ensures InStep(Reported(before)) <==> before.settings.monthRotate != 0 || InStep(before)
    ensures var next := Overlay(before.settings, config);
            var changed := NetworkChanged(before.settings, next);
            && (r.Ok? ==> (InStep(after) <==> InStep(before) || changed))
            && (r.Err? ==> (InStep(after) <==>
                              if ValidParams(config, env) && changed then ClockOf(next) == ClockOf(before.settings)
                              else InStep(before)))
  {
    hide Overlay, ValidParams;
  }

  /**
   * How long a failed request can be felt. With clock and settings in step before it, they are in step after the next
   * report if and only if there is a reset day in force, or the request was invalid, or it asked for the same clock.
   */
  lemma ReportRepairsFailureExactly(
    before: Runtime, config: Params, env: Env, after: Runtime, r: Result<bool, ApplyError>)
    requires Applies(before, config, env, after, r) && r.Err? && InStep(before)
    ensures InStep(Reported(after))
            <==> || before.settings.monthRotate != 0 || !ValidParams(config, env)
                 || ClockOf(Overlay(before.settings, config)) == before.clock
  {
    ClockInStepExactly(before, config, env, after, r);
    hide Overlay, ValidParams;
  }

  // ---------------------------------------------------------------- the code

  class RuntimeState {
    var current: Settings
    var clock: ResetClock

    ghost function View(): Runtime
      reads this
    {
      Runtime(current, clock)
    }

    /** The agent starts with no clock stored. */
    constructor (settings: Settings)
      ensures View() == Runtime(settings, ResetClock(0, "", ""))
    {
      current, clock := settings, ResetClock(0, "", "");
    }

    /** What `NetworkSpeed` (`monitoring/unit/net.go`) does to the clock in every report. */
    method Report()
      modifies this`clock
      ensures View() == Reported(old(View()))
    {
      if current.monthRotate != 0 {
        clock := ClockOf(current);
      }
    }

    /** A text field of the request, or the current value when the request does not name it. */
    static method OptionalText(value: Option<string>, default: string, maxLength: nat)
      returns (r: Result<string, ApplyError>)
      ensures r.Ok? <==> ValidOptionalText(value, maxLength)
      ensures r.Ok? ==> r.value == ChooseText(value, default)
      ensures r.Err? ==> r.error == TooLong || r.error == ControlCharacters
    {
      hide Trim, ValidText;
      if value.None? {
        return Ok(default);
      }
      r := ValidateText(value.value, maxLength);
    }

    /** The clock fields, which also have to parse. */
    method ValidateClock(config: Params, env: Env) returns (r: Result<ResetClock, ApplyError>)
      ensures r.Ok? <==> ValidClock(config, env)
      ensures r.Ok? ==> r.value == ClockOf(Overlay(current, config))
      ensures r.Err? ==> r.error != NetworkFailed && r.error != BadInterval
      ensures r == Err(BadDay) <==> config.monthRotate.Some? && !(0 <= config.monthRotate.value <= 31)
    {
      hide Trim, ValidText;
      if config.monthRotate.Some? && (config.monthRotate.value < 0 || config.monthRotate.value > 31) {
        return Err(BadDay);
      }
      var time := OptionalText(config.monthRotateTime, current.monthRotateTime, 16);
      if time.Err? {
        return Err(time.error);
      }
      if config.monthRotateTime.Some? && time.value != "" && !env.clockOk(time.value) {
        return Err(BadClock);
      }
      var zone := OptionalText(config.monthRotateTimezone, current.monthRotateTimezone, 64);
      if zone.Err? {
        return Err(zone.error);
      }
      if config.monthRotateTimezone.Some? && zone.value != "" && !env.zoneOk(zone.value) {
        return Err(UnknownZone);
      }
      return Ok(ResetClock(Choose(config.monthRotate, current.monthRotate), time.value, zone.value));
    }

    /** Fills a copy field by field and stops at the first invalid one; nothing is stored. */
    method Validate(config: Params, env: Env) returns (r: Result<Settings, ApplyError>)
      ensures r.Ok? <==> ValidParams(config, env)
      ensures r.Ok? ==> r.value == Overlay(current, config)
      ensures r.Err? ==> r.error != NetworkFailed
      ensures r == Err(BadDay) <==> config.monthRotate.Some? && !(0 <= config.monthRotate.value <= 31)
      ensures r == Err(BadInterval) ==> config.interval.Some? && !(1.0 <= config.interval.value <= 3600.0)
    {
      hide Trim, ValidText, ValidClock, ValidOptionalText;
      var time := ValidateClock(config, env);
      if time.Err? {
        return Err(time.error);
      }
      if config.interval.Some? && (config.interval.value < 1.0 || config.interval.value > 3600.0) {
        return Err(BadInterval);
      }
      var nics := OptionalText(config.includeNics, current.includeNics, 1024);
      if nics.Err? {
        return Err(nics.error);
      }
      var others := OptionalText(config.excludeNics, current.excludeNics, 1024);
      if others.Err? {
        return Err(others.error);
      }
      var mounts := OptionalText(config.includeMountpoints, current.includeMountpoints, 2048);
      if mounts.Err? {
        return Err(mounts.error);
      }
      return Ok(Settings(
        time.value.day, time.value.time, time.value.zone, Choose(config.interval, current.interval),
        nics.value, others.value, mounts.value,
        Choose(config.memoryIncludeCache, current.memoryIncludeCache), Choose(config.enableGPU, current.enableGPU)));
    }

    method Apply(config: Params, env: Env) returns (r: Result<bool, ApplyError>)
      modifies this
      ensures Applies(old(View()), config, env, View(), r)
    {
      hide Overlay, ValidParams;
      var validated := Validate(config, env);
      if validated.Err? {
        return Err(validated.error);
      }
      var next := validated.value;
      if next == current {
        return Ok(false);
      }
      if NetworkChanged(current, next) {
        clock := ClockOf(next);
        if next.monthRotate == 0 {
          if !env.stopOk {
            return Err(NetworkFailed);
          }
        } else if !env.startOk || !env.listOk || !env.configureOk {
          return Err(NetworkFailed);
        }
      }
      current := next;
      return Ok(true);
    }
  }
}
