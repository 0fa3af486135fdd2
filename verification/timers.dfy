/** The unit choice of `Timer.timeit`: an elapsed time in nanoseconds is shown
    in the largest of ns, μs, ms and s that does not exceed it, as an exact
    quotient. */
module Timers {

  datatype TimeUnit = Ns | Us | Ms | S

  /** The label printed in brackets. The micro unit is written with the
      Greek small letter mu (U+03BC), as timers.py writes it. */
  function Label(u: TimeUnit): string
  {
    match u
    case Ns => "ns"
    case Us => "\U{03BC}s"
    case Ms => "ms"
    case S => "s"
  }

  /** Nanoseconds per unit. */
  function Divisor(u: TimeUnit): (d: nat)
    ensures d >= 1
  {
    match u
    case Ns => 1
    case Us => 1_000
    case Ms => 1_000_000
    case S => 1_000_000_000
  }

  /** Position of a unit, smallest first. */
  function Rank(u: TimeUnit): nat
  {
    match u
    case Ns => 0
    case Us => 1
    case Ms => 2
    case S => 3
  }

  datatype Reading = Reading(value: real, unit: TimeUnit)

  /** The branch in `timeit_wrapper`: value and unit for an elapsed time. */
  function Scale(totalNs: nat): (r: Reading)
    ensures r.value * Divisor(r.unit) as real == totalNs as real
    ensures r.unit != S ==> r.value < 1000.0
    ensures r.unit != Ns ==> r.value >= 1.0
  {
    if totalNs < 1_000 then Reading(totalNs as real, Ns)
    else if totalNs < 1_000_000 then Reading(totalNs as real / 1_000.0, Us)
    else if totalNs < 1_000_000_000 then Reading(totalNs as real / 1_000_000.0, Ms)
    else Reading(totalNs as real / 1_000_000_000.0, S)
  }

  /** The chosen unit is the largest whose size does not exceed the elapsed
      time, falling back to ns below one microsecond. */
  lemma ScaleIsLargestFit(totalNs: nat, u: TimeUnit)
    ensures Divisor(u) <= totalNs ==> Rank(u) <= Rank(Scale(totalNs).unit)
    ensures Rank(u) > Rank(Scale(totalNs).unit) ==> totalNs < Divisor(u)
    ensures Scale(totalNs).unit == Ns || Divisor(Scale(totalNs).unit) <= totalNs
  {
  }

  /** A longer time never gets a smaller unit. */
  lemma ScaleMonotone(a: nat, b: nat)
    requires a <= b
    ensures Rank(Scale(a).unit) <= Rank(Scale(b).unit)
  {
  }

  /** The boundaries: 999 ns, 1000 ns = 1 μs, 999999 ns, 10^6 ns = 1 ms,
      10^9 - 1 ns and 10^9 ns = 1 s. */
  lemma Boundaries()
    ensures Scale(999) == Reading(999.0, Ns)
    ensures Scale(1_000) == Reading(1.0, Us)
    ensures Scale(999_999).unit == Us
    ensures Scale(1_000_000) == Reading(1.0, Ms)
    ensures Scale(999_999_999).unit == Ms
    ensures Scale(1_000_000_000) == Reading(1.0, S)
  {
  }
}
