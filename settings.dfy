/** `glow::Settings`: the five tuning parameters of the engine, a plain
    mutable record with getters and chainable setters. The setters store their
    argument as given; the only range limiting is the parameter type itself
    (`uint8_t` for decay_lin and fps, `uint32_t` for radius). `bleed` and
    `decay_exp` are `float`s that the engine only stores and copies; they are
    modelled as reals. */
module GlowSettings {
  import opened CInt

  /** The value held by a `Settings` object. */
  datatype SettingsValue = SettingsValue(
    bleed: real,
    decayExp: real,
    decayLin: u8,
    fps: u8,
    radius: u32)

  class Settings {
    var bleed: real
    var decayExp: real
    var decayLin: u8
    var fps: u8
    var radius: u32

    /** The record as a value. */
    function Value(): SettingsValue
      reads this
    {
      SettingsValue(bleed, decayExp, decayLin, fps, radius)
    }

    /** The defaults: bleed 0.95, decay_exp 0.02, decay_lin 1, fps 20, radius 3. */
    constructor ()
      ensures Bleed() == 0.95 && DecayExp() == 0.02
      ensures DecayLin() == 1 && Fps() == 20 && Radius() == 3
    {
      bleed := 0.95;
      decayExp := 0.02;
      decayLin := 1;
      fps := 20;
      radius := 3;
    }

    /** The implicit copy constructor. */
    constructor Copy(other: Settings)
      ensures Value() == other.Value()
    {
      bleed := other.bleed;
      decayExp := other.decayExp;
      decayLin := other.decayLin;
      fps := other.fps;
      radius := other.radius;
    }

    /** The implicit copy assignment `*this = other`. */
    method Assign(other: Settings)
      modifies this
      ensures Value() == old(other.Value())
    {
      bleed, decayExp, decayLin, fps, radius :=
        other.bleed, other.decayExp, other.decayLin, other.fps, other.radius;
    }

    /** The getters read the snapshot's fields back unchanged. */
    function Bleed(): (r: real) reads this ensures r == Value().bleed { bleed }
    function DecayExp(): (r: real) reads this ensures r == Value().decayExp { decayExp }
    function DecayLin(): (r: u8) reads this ensures r == Value().decayLin { decayLin }
    function Fps(): (r: u8) reads this ensures r == Value().fps { fps }
    function Radius(): (r: u32) reads this ensures r == Value().radius { radius }

    method SetBleed(b: real) returns (self: Settings)
      modifies this
      ensures self == this
      ensures Bleed() == b
      ensures Value() == old(Value()).(bleed := b)
    {
      bleed := b;
      self := this;
    }

    method SetDecayExp(e: real) returns (self: Settings)
      modifies this
      ensures self == this
      ensures DecayExp() == e
      ensures Value() == old(Value()).(decayExp := e)
    {
      decayExp := e;
      self := this;
    }

    method SetDecayLin(d: u8) returns (self: Settings)
      modifies this
      ensures self == this
      ensures DecayLin() == d
      ensures Value() == old(Value()).(decayLin := d)
    {
      decayLin := d;
      self := this;
    }

    method SetRadius(r: u32) returns (self: Settings)
      modifies this
      ensures self == this
      ensures Radius() == r
      ensures Value() == old(Value()).(radius := r)
    {
      radius := r;
      self := this;
    }

    method SetFps(f: u8) returns (self: Settings)
      modifies this
      ensures self == this
      ensures Fps() == f
      ensures Value() == old(Value()).(fps := f)
    {
      fps := f;
      self := this;
    }
  }

  /** Chained setters act on one object, later calls overriding earlier ones
      for the same field; repeating a setter with the same value changes
      nothing further. */
  method SetTwice(s: Settings, f: u8, d: u8)
    modifies s
    ensures s.Value() == old(s.Value()).(fps := f, decayLin := d)
  {
    var r := s.SetFps(f);
    r := r.SetDecayLin(d);
    r := r.SetFps(f);
    r := r.SetDecayLin(d);
  }
}
