/** The pure helpers at the bottom of src/app/app.ts, which the state handler
    imports as well: schedule arithmetic, the plain maximum vote, the vote draw
    and the host name built from a socket address. */
module AppHelpers {
  import opened Models

  /** Milliseconds per interval unit (a month is 30 days); an unrecognised
      unit multiplies by nothing, i.e. by 1. */
  function UnitMillis(unit: IntervalUnit): (f: int)
    ensures f > 0
    ensures unit == MINUTE ==> f == 60000
    ensures unit == HOUR ==> f == 3600000
    ensures unit == DAY ==> f == 86400000
    ensures unit == MONTH ==> f == 2592000000
    ensures unit !in {MINUTE, HOUR, DAY, MONTH} ==> f == 1
  {
    if unit == MINUTE then 1000 * 60
    else if unit == HOUR then 1000 * 60 * 60
    else if unit == DAY then 1000 * 60 * 60 * 24
    else if unit == MONTH then 1000 * 60 * 60 * 24 * 30
    else 1
  }

  /** `startTime` advanced by `intervalValue` units. */
  function CalculateNewExecuteTime(startTime: int, intervalValue: int, intervalUnit: IntervalUnit): (t: int)
    ensures intervalUnit == MINUTE ==> t == startTime + intervalValue * 60000
    ensures intervalUnit == HOUR ==> t == startTime + intervalValue * 3600000
    ensures intervalUnit == DAY ==> t == startTime + intervalValue * 86400000
    ensures intervalUnit == MONTH ==> t == startTime + intervalValue * 2592000000
    ensures intervalUnit !in {MINUTE, HOUR, DAY, MONTH} ==> t == startTime + intervalValue
  {
    startTime + intervalValue * UnitMillis(intervalUnit)
  }

  /** Advancing by `v` and then by `w` units is advancing by `v + w` units:
      two completed rounds move a job exactly two intervals on. */
  lemma ExecuteTimeAdditive(s: int, v: int, w: int, unit: IntervalUnit)
    ensures CalculateNewExecuteTime(CalculateNewExecuteTime(s, v, unit), w, unit)
         == CalculateNewExecuteTime(s, v + w, unit)
  {
    var f := UnitMillis(unit);
    calc {
      CalculateNewExecuteTime(CalculateNewExecuteTime(s, v, unit), w, unit);
      s + v * f + w * f;
      { assert v * f + w * f == (v + w) * f; }
      s + (v + w) * f;
    }
  }

  /** A positive interval always moves the execution time into the future,
      and the step never depends on where it starts. */
  lemma ExecuteTimeAdvances(s: int, s': int, v: int, unit: IntervalUnit)
    requires v > 0
    ensures CalculateNewExecuteTime(s, v, unit) >= s + v
    ensures CalculateNewExecuteTime(s', v, unit) - s' == CalculateNewExecuteTime(s, v, unit) - s
  {
    var f := UnitMillis(unit);
    assert v * f >= v * 1;
  }

  /** `Math.max(...votes)`: minus infinity for no votes, else a number. */
  datatype MaxResult = NegativeInfinity | Finite(value: int)

  /** The `getWinnerVote` of app.ts: a plain maximum, no tie detection. */
  function MaxVote(votes: seq<int>): (m: MaxResult)
    ensures m.NegativeInfinity? <==> votes == []
    ensures m.Finite? ==> m.value in votes && forall v :: v in votes ==> v <= m.value
    decreases |votes|
  {
    if votes == [] then NegativeInfinity
    else
      var rest := MaxVote(votes[1..]);
      assert forall v :: v in votes ==> v == votes[0] || v in votes[1..];
      if rest.NegativeInfinity? || votes[0] >= rest.value then Finite(votes[0]) else rest
  }

  /** `Math.floor(Math.random() * 1e9)`, with the random number as a parameter. */
  function GenerateVote(random: real): (v: int)
    requires 0.0 <= random < 1.0
    ensures 0 <= v < 1000000000
  {
    (random * 1000000000.0).Floor
  }

  const IPV6_PREFIX: string := "::ffff:"

  /** `createHost`: strips the IPv4-mapped IPv6 prefix and prefixes the
      scheme. Without the prefix the local `host` stays undefined, which
      string concatenation renders as "undefined". The port is not used. */
  function CreateHost(remoteAddress: string, remotePort: int): (h: string)
    ensures |h| >= 7 && h[..7] == "http://"
    ensures IPV6_PREFIX <= remoteAddress ==> h == "http://" + remoteAddress[|IPV6_PREFIX|..]
    ensures !(IPV6_PREFIX <= remoteAddress) ==> h == "http://undefined"
  {
    var host := if IPV6_PREFIX <= remoteAddress then remoteAddress[|IPV6_PREFIX|..] else "undefined";
    "http://" + host
  }

  /** The host named in an IPv4-mapped address comes back behind the scheme. */
  lemma CreateHostRoundTrip(address: string, port: int)
    ensures CreateHost(IPV6_PREFIX + address, port) == "http://" + address
  {
    assert (IPV6_PREFIX + address)[..|IPV6_PREFIX|] == IPV6_PREFIX;
    assert (IPV6_PREFIX + address)[|IPV6_PREFIX|..] == address;
  }
}
