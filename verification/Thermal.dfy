/** Thermal classes, their temperature envelopes and the minimum curve span. */
module Thermal {

  datatype Option<+T> = None | Some(value: T)

  datatype Class = CPU | PassiveGPU | ActiveGPU | HDD | SSD {
    /** The classes whose chassis target is managed; an active GPU cools itself. */
    predicate Managed() { this != ActiveGPU }
  }

  /** A class with a fan curve of its own. */
  type Managed = c: Class | c.Managed() witness CPU

  /** The controller's order over the managed classes. */
  const MANAGED: seq<Managed> := [CPU, PassiveGPU, HDD, SSD]

  function Position(c: Managed): (i: nat)
    ensures i < |MANAGED| && MANAGED[i] == c
  {
    match c
    case CPU => 0
    case PassiveGPU => 1
    case HDD => 2
    case SSD => 3
  }

  /** One value per managed class: the cpu / pg / hdd / ssd field groups. */
  datatype Quad<T> = Quad(cpu: T, pg: T, hdd: T, ssd: T) {
    function At(c: Managed): T {
      match c
      case CPU => cpu
      case PassiveGPU => pg
      case HDD => hdd
      case SSD => ssd
    }

    /** The group with the field of class `c` replaced. */
    function With(c: Managed, v: T): (q: Quad<T>)
      ensures q.At(c) == v
      ensures forall d: Managed :: d != c ==> q.At(d) == At(d)
    {
      match c
      case CPU => this.(cpu := v)
      case PassiveGPU => this.(pg := v)
      case HDD => this.(hdd := v)
      case SSD => this.(ssd := v)
    }
  }

  /** Per-class temperature envelope, degrees Celsius. */
  datatype Envelope = Envelope(
    minSafe: int,
    preferredLow: int,
    preferredMid: int,
    preferredHigh: int,
    maxSafe: int,
    emergency: int)
  {
    predicate Valid() {
      minSafe < preferredLow <= preferredMid <= preferredHigh < maxSafe < emergency
    }
  }

  /** Compiled-in envelopes; the active GPU has none. */
  function DefaultEnvelope(c: Class): Option<Envelope> {
    match c
    case CPU => Some(Envelope(20, 55, 65, 75, 85, 90))
    case PassiveGPU => Some(Envelope(30, 75, 80, 83, 86, 90))
    case HDD => Some(Envelope(10, 32, 38, 43, 45, 50))
    case SSD => Some(Envelope(15, 45, 50, 60, 70, 80))
    case ActiveGPU => None
  }

  /** Minimum width of a class's ramp (comfort to emergency), in degrees. */
  function MinCurveSpan(c: Class): int {
    match c
    case CPU => 10
    case PassiveGPU => 8
    case HDD => 6
    case SSD => 6
    case ActiveGPU => 10
  }

  /** The highest ramp start a class may use under its emergency threshold. */
  function MaxRampStart(c: Class, emergency: int): int {
    emergency - MinCurveSpan(c)
  }
}
