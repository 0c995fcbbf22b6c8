/** The message API of the engine (`glow::Api`): messages from the page are
    JavaScript values, validated and dispatched on their `subject`.
    `requestSettings` is answered with a snapshot of the settings,
    `changeSettings` updates the settings all-or-nothing, and every malformed
    message is answered with an `error` message that carries it back. */
module GlowApi {
  import opened CInt
  import opened GlowSettings

  datatype Option<T> = None | Some(value: T)

  /** A JavaScript value (`pp::Var`), as far as the API tells values apart. */
  datatype Var =
    | Int(i: i32)
    | Double(d: real)
    | Str(s: string)
    | Dict(entries: map<string, Var>)
    | Other  // undefined, null, booleans, arrays and the rest

  /** `pp::Var::is_number`: an int or a double. */
  predicate IsNumber(v: Var)
  {
    v.Int? || v.Double?
  }

  /** `pp::Var::AsDouble` on a number. */
  function AsDouble(v: Var): real
    requires IsNumber(v)
  {
    if v.Int? then v.i as real else v.d
  }

  /** A value, or the `EInvalidMessage` exception. */
  datatype Result<T> = Ok(value: T) | Invalid

  const InvalidMessage: string := "invalid message"

  // ---------------------------------------------------------------------------
  // Typechecked field access
  // ---------------------------------------------------------------------------

  /** The string under `name`; invalid when the key is missing or the value is
      not a string. */
  function MessageGetString(msg: map<string, Var>, name: string): (r: Result<string>)
    ensures r.Ok? <==> name in msg && msg[name].Str?
    ensures r.Ok? ==> r.value == msg[name].s
  {
    if name !in msg then Invalid
    else if msg[name].Str? then Ok(msg[name].s)
    else Invalid
  }

  /** The number under `name`, ints widened to reals; invalid when the key is
      missing or the value is not a number. */
  function MessageGetFloat(msg: map<string, Var>, name: string): (r: Result<real>)
    ensures r.Ok? <==> name in msg && IsNumber(msg[name])
    ensures r.Ok? && msg[name].Int? ==> r.value == msg[name].i as real
    ensures r.Ok? && msg[name].Double? ==> r.value == msg[name].d
  {
    if name !in msg then Invalid
    else if IsNumber(msg[name]) then Ok(AsDouble(msg[name]))
    else Invalid
  }

  /** The int under `name`; invalid when the key is missing or the value is
      not an int (a double is refused even when it is whole). */
  function MessageGetInt(msg: map<string, Var>, name: string): (r: Result<i32>)
    ensures r.Ok? <==> name in msg && msg[name].Int?
    ensures r.Ok? ==> r.value == msg[name].i
  {
    if name !in msg then Invalid
    else if msg[name].Int? then Ok(msg[name].i)
    else Invalid
  }

  // ---------------------------------------------------------------------------
  // Outgoing messages
  // ---------------------------------------------------------------------------

  /** An `error` message with the given description, echoing the original
      message when there is one. */
  function BuildErrorMessage(description: string, originalMessage: Option<Var>): (m: Var)
    ensures m.Dict? && "subject" in m.entries && m.entries["subject"] == Str("error")
    ensures "message" in m.entries && m.entries["message"] == Str(description)
    ensures "originalMessage" in m.entries <==> originalMessage.Some?
    ensures originalMessage.Some? ==> m.entries["originalMessage"] == originalMessage.value
    ensures |m.entries| == if originalMessage.Some? then 3 else 2
  {
    var m := map["subject" := Str("error"), "message" := Str(description)];
    if originalMessage.Some? then
      Dict(m["originalMessage" := originalMessage.value])
    else
      Dict(m)
  }

  /** The reply to any message the API rejects. */
  function InvalidReply(message: Var): Var
  {
    BuildErrorMessage(InvalidMessage, Some(message))
  }

  const SettingsKeys: set<string> := {"bleed", "decayLin", "decayExp", "radius", "fps"}

  /** A `settingsBroadcast` message: the five settings, the floats as doubles
      and the integers as `int32_t` (a radius of 2^31 or more reads as
      negative). */
  function BuildSettingsMessage(s: SettingsValue): (m: Var)
    ensures m.Dict? && m.entries.Keys == {"subject"} + SettingsKeys
    ensures m.entries["subject"] == Str("settingsBroadcast")
    ensures var e := m.entries;
      && e["bleed"] == Double(s.bleed) && e["decayExp"] == Double(s.decayExp)
      && e["decayLin"] == Int(s.decayLin) && e["fps"] == Int(s.fps)
      && e["radius"] == Int(ToI32(s.radius))
    ensures forall k | k in SettingsKeys :: m.entries[k].Int? || m.entries[k].Double?
  {
    Dict(map[
      "subject" := Str("settingsBroadcast"),
      "bleed" := Double(s.bleed),
      "decayLin" := Int(s.decayLin),
      "decayExp" := Double(s.decayExp),
      "radius" := Int(ToI32(s.radius)),
      "fps" := Int(s.fps)])
  }

  // ---------------------------------------------------------------------------
  // Settings changes
  // ---------------------------------------------------------------------------

  /** The settings whose setters take an integer. */
  const IntKeys: set<string> := {"radius", "decayLin", "fps"}

  /** Every settings key present has the type its setter accepts: radius,
      decayLin and fps must be ints, bleed and decayExp any number. */
  function WellTyped(msg: map<string, Var>): (ok: bool)
    ensures ok <==> forall k | k in msg && k in SettingsKeys ::
      if k in IntKeys then msg[k].Int? else IsNumber(msg[k])
  {
    && ("radius" in msg ==> msg["radius"].Int?)
    && ("bleed" in msg ==> IsNumber(msg["bleed"]))
    && ("decayExp" in msg ==> IsNumber(msg["decayExp"]))
    && ("decayLin" in msg ==> msg["decayLin"].Int?)
    && ("fps" in msg ==> msg["fps"].Int?)
  }

  /** The settings after a `changeSettings` message, or invalid. Each present
      key replaces its field, converted to the setter's parameter type
      (`uint32_t` for radius, `uint8_t` for decayLin and fps); absent keys
      keep their value and other keys are ignored. */
  function ChangeSettings(msg: map<string, Var>, s: SettingsValue): (r: Result<SettingsValue>)
    ensures r.Ok? <==> WellTyped(msg)
    ensures r.Ok? ==>
      && ("bleed" !in msg ==> r.value.bleed == s.bleed)
      && ("decayExp" !in msg ==> r.value.decayExp == s.decayExp)
      && ("decayLin" !in msg ==> r.value.decayLin == s.decayLin)
      && ("fps" !in msg ==> r.value.fps == s.fps)
      && ("radius" !in msg ==> r.value.radius == s.radius)
    ensures r.Ok? ==>
      && ("bleed" in msg ==> r.value.bleed == AsDouble(msg["bleed"]))
      && ("decayExp" in msg ==> r.value.decayExp == AsDouble(msg["decayExp"]))
    ensures r.Ok? ==>
      && ("decayLin" in msg ==> (r.value.decayLin - msg["decayLin"].i) % 0x100 == 0)
      && ("fps" in msg ==> (r.value.fps - msg["fps"].i) % 0x100 == 0)
      && ("radius" in msg ==> (r.value.radius - msg["radius"].i) % 0x1_0000_0000 == 0)
  {
    if !WellTyped(msg) then Invalid
    else Ok(SettingsValue(
      bleed := if "bleed" in msg then AsDouble(msg["bleed"]) else s.bleed,
      decayExp := if "decayExp" in msg then AsDouble(msg["decayExp"]) else s.decayExp,
      decayLin := if "decayLin" in msg then ToU8(msg["decayLin"].i) else s.decayLin,
      fps := if "fps" in msg then ToU8(msg["fps"].i) else s.fps,
      radius := if "radius" in msg then ToU32(msg["radius"].i) else s.radius))
  }

  /** A change only depends on the settings keys of the message. */
  lemma ChangeIgnoresOtherKeys(msg: map<string, Var>, s: SettingsValue, k: string, v: Var)
    requires k !in SettingsKeys
    ensures ChangeSettings(msg[k := v], s) == ChangeSettings(msg, s)
  {
    var m' := msg[k := v];
    assert forall key | key in SettingsKeys :: (key in m' <==> key in msg) && (key in msg ==> m'[key] == msg[key]);
  }

  /** Applying the same change twice gives what applying it once gives. */
  lemma ChangeIdempotent(msg: map<string, Var>, s: SettingsValue)
    requires ChangeSettings(msg, s).Ok?
    ensures ChangeSettings(msg, ChangeSettings(msg, s).value) == ChangeSettings(msg, s)
  {
  }

  /** A snapshot message, read back as a change request, restores exactly the
      settings it was built from, whatever the settings were before. */
  lemma SettingsMessageRoundTrip(s: SettingsValue, before: SettingsValue)
    ensures ChangeSettings(BuildSettingsMessage(s).entries, before) == Ok(s)
  {
    var m := BuildSettingsMessage(s).entries;
    assert m["radius"] == Int(ToI32(s.radius));
    assert ToU32(ToI32(s.radius)) == s.radius;
    assert ToU8(s.decayLin) == s.decayLin && ToU8(s.fps) == s.fps;
  }

  /** `ApplyChangeSettingsMessage`: the setters run on a copy of the settings,
      and the copy is assigned back only when every present key was read
      without an exception. */
  method ApplyChangeSettingsMessage(message: map<string, Var>, settings: Settings) returns (ok: bool)
    modifies settings
    ensures ok == ChangeSettings(message, old(settings.Value())).Ok?
    ensures settings.Value() ==
      if ok then ChangeSettings(message, old(settings.Value())).value else old(settings.Value())
  {
    var newSettings := new Settings.Copy(settings);
    var chained: Settings;
    if "radius" in message {
      var radius := MessageGetInt(message, "radius");
      if radius.Invalid? { return false; }
      chained := newSettings.SetRadius(ToU32(radius.value));
    }
    if "bleed" in message {
      var bleed := MessageGetFloat(message, "bleed");
      if bleed.Invalid? { return false; }
      chained := newSettings.SetBleed(bleed.value);
    }
    if "decayExp" in message {
      var decayExp := MessageGetFloat(message, "decayExp");
      if decayExp.Invalid? { return false; }
      chained := newSettings.SetDecayExp(decayExp.value);
    }
    if "decayLin" in message {
      var decayLin := MessageGetInt(message, "decayLin");
      if decayLin.Invalid? { return false; }
      chained := newSettings.SetDecayLin(ToU8(decayLin.value));
    }
    if "fps" in message {
      var fps := MessageGetInt(message, "fps");
      if fps.Invalid? { return false; }
      chained := newSettings.SetFps(ToU8(fps.value));
    }
    settings.Assign(newSettings);
    return true;
  }

  // ---------------------------------------------------------------------------
  // Dispatch
  // ---------------------------------------------------------------------------

  /** The settings after a message and the message posted back, if any. */
  datatype Response = Response(settings: SettingsValue, reply: Option<Var>)

  /** The subject of a message, or invalid if the message is not a dictionary
      or has no string `subject`. */
  function Subject(message: Var): Result<string>
  {
    if message.Dict? then MessageGetString(message.entries, "subject") else Invalid
  }

  /** What handling `message` does to settings `s`. */
  function Respond(message: Var, s: SettingsValue): (r: Response)
    ensures r.reply.None? || r.settings == s
    ensures r.reply.Some? ==>
      r.reply.value == InvalidReply(message) || r.reply.value == BuildSettingsMessage(s)
    ensures r.reply.None? <==> Subject(message) == Ok("changeSettings") && WellTyped(message.entries)
  {
    var subject := Subject(message);
    if subject == Ok("requestSettings") then
      Response(s, Some(BuildSettingsMessage(s)))
    else if subject == Ok("changeSettings") then
      match ChangeSettings(message.entries, s)
      case Ok(t) => Response(t, None)
      case Invalid => Response(s, Some(InvalidReply(message)))
    else
      Response(s, Some(InvalidReply(message)))
  }

  /** A message that is not a dictionary, has no string subject, or has a
      subject other than the two known ones is answered by one error message
      echoing it, and the settings stay as they were. */
  lemma MalformedMessageEchoed(message: Var, s: SettingsValue)
    requires !message.Dict? || "subject" !in message.entries || !message.entries["subject"].Str?
      || message.entries["subject"].s !in {"requestSettings", "changeSettings"}
    ensures Respond(message, s) == Response(s, Some(InvalidReply(message)))
    ensures var e := InvalidReply(message).entries;
      e["subject"] == Str("error") && e["message"] == Str("invalid message")
      && e["originalMessage"] == message
  {
  }

  /** `requestSettings` leaves the settings alone and posts one
      `settingsBroadcast` whose fields carry exactly the current settings. */
  lemma RequestSettingsReportsCurrent(message: Var, s: SettingsValue)
    requires Subject(message) == Ok("requestSettings")
    ensures var r := Respond(message, s);
      r.settings == s && r.reply == Some(BuildSettingsMessage(s))
      && r.reply.value.entries["subject"] == Str("settingsBroadcast")
      && r.reply.value.entries["bleed"] == Double(s.bleed)
      && r.reply.value.entries["decayExp"] == Double(s.decayExp)
      && r.reply.value.entries["decayLin"] == Int(s.decayLin)
      && r.reply.value.entries["fps"] == Int(s.fps)
      && r.reply.value.entries["radius"] == Int(ToI32(s.radius))
      && ChangeSettings(r.reply.value.entries, s) == Ok(s)
  {
    SettingsMessageRoundTrip(s, s);
  }

  /** `changeSettings` is all-or-nothing: a message with a wrongly typed
      settings key changes nothing and is echoed in an error; otherwise every
      present key is applied and nothing is posted. */
  lemma ChangeSettingsAllOrNothing(message: Var, s: SettingsValue)
    requires Subject(message) == Ok("changeSettings")
    ensures !WellTyped(message.entries) ==>
      Respond(message, s) == Response(s, Some(InvalidReply(message)))
    ensures WellTyped(message.entries) ==>
      Respond(message, s) == Response(ChangeSettings(message.entries, s).value, None)
  {
  }

  class Api {
    /** The settings of the owning instance (`instance.GetSettings()`). */
    const settings: Settings
    /** The messages handed to `instance.PostMessage`, oldest first. */
    var posted: seq<Var>

    constructor (settings: Settings)
      ensures this.settings == settings && posted == []
    {
      this.settings := settings;
      posted := [];
    }

    /** `Api::HandleMessage`: the settings become those `Respond` gives and
        its reply, if any, is posted; at most one message per call. */
    method HandleMessage(message: Var)
      modifies this, settings
      ensures var r := Respond(message, old(settings.Value()));
        settings.Value() == r.settings
        && posted == old(posted) + (if r.reply.Some? then [r.reply.value] else [])
      ensures |posted| <= |old(posted)| + 1
    {
      var ok := Dispatch(message);
      if !ok {
        posted := posted + [BuildErrorMessage(InvalidMessage, Some(message))];
      }
    }

    /** The `try` block of `HandleMessage`; `ok == false` stands for an
        `EInvalidMessage` having been thrown, in which case nothing changed. */
    method Dispatch(message: Var) returns (ok: bool)
      modifies this, settings
      ensures var r := Respond(message, old(settings.Value()));
        if ok then
          settings.Value() == r.settings
          && posted == old(posted) + (if r.reply.Some? then [r.reply.value] else [])
        else
          r == Response(old(settings.Value()), Some(InvalidReply(message)))
          && settings.Value() == old(settings.Value()) && posted == old(posted)
    {
      if !message.Dict? { return false; }
      var subject := MessageGetString(message.entries, "subject");
      if subject.Invalid? { return false; }
      if subject.value == "requestSettings" {
        posted := posted + [BuildSettingsMessage(settings.Value())];
        return true;
      } else if subject.value == "changeSettings" {
        ok := ApplyChangeSettingsMessage(message.entries, settings);
        return ok;
      }
      return false;
    }
  }
}
