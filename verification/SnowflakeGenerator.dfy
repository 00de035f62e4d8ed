/** The generator object, called by one thread with a scripted clock. */
module SnowflakeGenerator {
  import opened BitNat
  import opened Positions
  import opened Snowflake
  import opened SnowflakeProtocol

  /** How a call ends: the last two are the exceptions, Unfinished is a call still waiting when the script ends. */
  datatype Outcome = Id(id: nat) | Unfinished | ClockRefused | TimestampOverflow

  /** Events of one thread, whose clock readings fit the state word; failures only if some are scripted. */
  ghost predicate Turns(c: Config, t: nat, spurious: seq<bool>, events: seq<Event>) {
    forall i :: 0 <= i < |events| ==>
      && events[i].thread == t && (events[i].Clock? ==> c.Reading(events[i].now))
      && (events[i].Run? && events[i].spurious ==> true in spurious)
  }

  /** The clock readings of a run, in order. */
  function Readings(events: seq<Event>): seq<nat> {
    if events == [] then []
    else
      var n := |events| - 1;
      Readings(events[..n]) + (if events[n].Clock? then [events[n].now] else [])
  }

  /** How many readings pass before the first one above the timestamp. */
  function Earlier(clock: seq<nat>, timestamp: nat): (n: nat)
    ensures n <= |clock|
  {
    if clock == [] || clock[0] > timestamp then 0 else 1 + Earlier(clock[1..], timestamp)
  }

  /** How a call ends whose exchange to the stamp succeeds. */
  function EndOf(c: Config, stamp: Stamp): Outcome
    requires c.Legal()
  {
    var offset := Sub64(stamp.timestamp, c.epoch);
    if offset > c.MaxTimestamp() then TimestampOverflow else Id(Pack(c, offset, stamp.sequence))
  }

  /** An identifier is packed exactly when the offset from the epoch fits its field; it is then read back. */
  lemma EndExactly(c: Config, stamp: Stamp)
    requires c.Legal() && Storable(c, stamp)
    ensures var offset := (stamp.timestamp - c.epoch) % Pow2(64);
            && (EndOf(c, stamp).Id? <==> offset < Pow2(c.timestampBits))
            && (!EndOf(c, stamp).Id? ==> EndOf(c, stamp) == TimestampOverflow)
            && (EndOf(c, stamp).Id? ==>
                  && EndOf(c, stamp).id == (offset * Pow2(c.serverIdBits) + c.serverId) * Pow2(c.sequenceBits) + stamp.sequence
                  && ParseId(c, EndOf(c, stamp).id) == ParsedId(stamp.timestamp, c.serverId, stamp.sequence))
  {
    hide Pow2, Pack, ParseId;
    Word(c, stamp.timestamp);
    Difference(stamp.timestamp, c.epoch, Pow2(64));
    var offset := Sub64(stamp.timestamp, c.epoch);
    if offset <= c.MaxTimestamp() {
      PackValue(c, offset, stamp.sequence);
      ParsePacked(c, stamp);
    }
  }

  lemma Difference(a: nat, b: nat, word: nat)
    requires a < word && b < word
    ensures (a - b) % word == if a >= b then a - b else a + word - b
  {
    if a >= b {
      ModOfSum(word, 0, a - b);
    } else {
      var q, r := (a - b) / word, (a - b) % word;
      assert a - b == word * q + r;
      Below(word, q);
    }
  }

  lemma Below(word: nat, q: int)
    ensures q >= 0 ==> word * q >= 0
    ensures q <= -2 ==> word * q <= -2 * word
  {
  }

  /** How a call ends, from the state word, the clock and the failures alone. */
  function Called(c: Config, state: nat, clock: seq<nat>, spurious: seq<bool>): Outcome
    requires c.Legal()
    decreases |clock|, 0
  {
    if clock == [] then Unfinished
    else
      match Decide(c, clock[0], state)
      case Retry => Called(c, state, clock[1..], spurious)
      case Refuse => ClockRefused
      case Try(stamp) => Exchanged(c, state, stamp, clock[1..], spurious)
      case AwaitAfter(timestamp) =>
        var rest := clock[1..];
        var n := Earlier(rest, timestamp);
        if n == |rest| then Unfinished else Exchanged(c, state, Stamp(rest[n], 0), rest[n + 1..], spurious)
  }

  function Exchanged(c: Config, state: nat, stamp: Stamp, rest: seq<nat>, spurious: seq<bool>): Outcome
    requires c.Legal()
    decreases |rest|, 1
  {
    if spurious != [] && spurious[0] then Called(c, state, rest, spurious[1..]) else EndOf(c, stamp)
  }

  /** What one reading does to the end of a call. */
  lemma CalledStep(c: Config, state: nat, clock: seq<nat>, spurious: seq<bool>, k: nat, tries: nat)
    requires c.Legal() && k < |clock| && tries <= |spurious|
    ensures var all, rest := Called(c, state, clock[k..], spurious[tries..]), clock[k + 1..];
            match Decide(c, clock[k], state)
            case Retry => all == Called(c, state, rest, spurious[tries..])
            case Refuse => all == ClockRefused
            case Try(stamp) => all == Exchanged(c, state, stamp, rest, spurious[tries..])
            case AwaitAfter(timestamp) =>
              var n := Earlier(rest, timestamp);
              if n == |rest| then all == Unfinished
              else all == Exchanged(c, state, Stamp(clock[k + 1 + n], 0), clock[k + 1 + n + 1..], spurious[tries..])
  {
    hide Pow2, Pack, Decide, Exchanged;
    var rest := clock[k + 1..];
    assert clock[k..][1..] == rest;
    var d := Decide(c, clock[k], state);
    if d.AwaitAfter? && Earlier(rest, d.timestamp) < |rest| {
      var n := Earlier(rest, d.timestamp);
      assert rest[n + 1..] == clock[k + 1 + n + 1..];
    }
  }

  lemma CalledNothing(c: Config, state: nat, spurious: seq<bool>)
    requires c.Legal()
    ensures Called(c, state, [], spurious) == Unfinished
  {
  }

  lemma ExchangedStep(c: Config, state: nat, stamp: Stamp, rest: seq<nat>, spurious: seq<bool>, tries: nat)
    requires c.Legal() && tries <= |spurious|
    ensures Exchanged(c, state, stamp, rest, spurious[tries..])
            == if tries < |spurious| && spurious[tries] then Called(c, state, rest, spurious[tries + 1..]) else EndOf(c, stamp)
  {
    hide Pow2, Pack, Decide, Called;
    if tries < |spurious| {
      assert spurious[tries..][1..] == spurious[tries + 1..];
    }
  }

  /** The stamp an attempt goes for with the first of the readings, waiting for a later one if it must. */
  ghost predicate GoesFor(c: Config, state: nat, clock: seq<nat>, stamp: Stamp) {
    && clock != []
    && match Decide(c, clock[0], state)
       case Try(first) => stamp == first
       case AwaitAfter(timestamp) =>
         var n := Earlier(clock[1..], timestamp);
         n < |clock| - 1 && stamp == Stamp(clock[1..][n], 0)
       case _ => false
  }

  /** After k readings that ask for a retry, the next one leads to a stamp with this identifier. */
  ghost predicate Succeeds(c: Config, state: nat, clock: seq<nat>, k: int, stamp: Stamp, id: nat)
    requires c.Legal()
  {
    && 0 <= k <= |clock| && (forall i :: 0 <= i < k ==> Decide(c, clock[i], state) == Retry)
    && GoesFor(c, state, clock[k..], stamp) && EndOf(c, stamp) == Id(id)
  }

  /**
   * Without failures of the exchange, a call returns an identifier exactly when the first reading that
   * does not ask for a retry leads to a stamp, and that stamp's offset from the epoch fits.
   */
  lemma {:induction false} IdExactly(c: Config, state: nat, clock: seq<nat>, id: nat)
    requires c.Legal()
    ensures Called(c, state, clock, []) == Id(id) <==> exists k, stamp :: Succeeds(c, state, clock, k, stamp, id)
  {
    hide Pow2, Pack, Decide;
    if clock == [] {
    } else {
      assert clock[0..] == clock;
      if Decide(c, clock[0], state) == Retry {
        var rest := clock[1..];
        IdExactly(c, state, rest, id);
        if k, stamp :| Succeeds(c, state, rest, k, stamp, id) {
          assert clock[k + 1..] == rest[k..];
          assert Succeeds(c, state, clock, k + 1, stamp, id);
        }
        if k, stamp :| Succeeds(c, state, clock, k, stamp, id) {
          assert k > 0 && rest[k - 1..] == clock[k..];
          assert forall i :: 0 <= i < k - 1 ==> rest[i] == clock[i + 1];
          assert Succeeds(c, state, rest, k - 1, stamp, id);
        }
      } else {
        FirstDecides(c, state, clock, id);
        if stamp :| GoesFor(c, state, clock, stamp) && EndOf(c, stamp) == Id(id) {
          assert Succeeds(c, state, clock, 0, stamp, id);
        }
      }
    }
  }

  lemma FirstDecides(c: Config, state: nat, clock: seq<nat>, id: nat)
    requires c.Legal() && clock != [] && Decide(c, clock[0], state) != Retry
    ensures Called(c, state, clock, []) == Id(id)
            <==> exists stamp :: GoesFor(c, state, clock, stamp) && EndOf(c, stamp) == Id(id)
  {
    hide Pow2, Pack, Decide;
    match Decide(c, clock[0], state)
    case Try(first) => assert GoesFor(c, state, clock, first);
    case AwaitAfter(timestamp) =>
      var n := Earlier(clock[1..], timestamp);
      if n < |clock| - 1 {
        assert GoesFor(c, state, clock, Stamp(clock[1..][n], 0));
      }
    case _ =>
  }

  lemma AtOnce(c: Config, state: nat, now: nat)
    requires now > LastTimestamp(c, state)
    ensures Decide(c, now, state) == Try(Stamp(now, 0))
  {
    hide LastTimestamp, LastSequence, And;
  }

  /** Without failures, a first reading past the last timestamp decides the call: identifier or overflow. */
  lemma FirstReading(c: Config, state: nat, clock: seq<nat>)
    requires c.Legal() && clock != [] && c.Reading(clock[0]) && clock[0] > Quotient(state, Pow2(c.sequenceBits))
    ensures Decide(c, clock[0], state) == Try(Stamp(clock[0], 0))
    ensures var r := Called(c, state, clock, []);
            && (r.Id? <==> (clock[0] - c.epoch) % Pow2(64) < Pow2(c.timestampBits))
            && (r.Id? ==> ParseId(c, r.id) == ParsedId(clock[0], c.serverId, 0))
  {
    AtOnce(c, state, clock[0]);
    hide Pow2, Pack, ParseId, EndOf, Decide, Earlier;
    EndExactly(c, Stamp(clock[0], 0));
    assert Called(c, state, clock, []) == EndOf(c, Stamp(clock[0], 0));
  }

  /** A first reading past the last timestamp, and no failure to come. */
  ghost predicate Prompt(c: Config, state: nat, clock: seq<nat>, spurious: seq<bool>) {
    clock != [] && clock[0] > Quotient(state, Pow2(c.sequenceBits)) && spurious == []
  }

  class Generator {
    const config: Config
    var state: nat

    constructor (config: Config)
      requires config.Legal()
      ensures this.config == config && state == Initial.state
    {
      this.config := config;
      state := 0;
    }

    /** A server id that does not fit its field is refused. */
    static method Create(config: Config) returns (g: Generator?)
      requires config.Layout()
      ensures g == null <==> config.serverId > config.MaxServerId()
      ensures g != null ==> fresh(g) && g.config == config && g.config.Legal() && g.state == Initial.state
    {
      if config.serverId > config.MaxServerId() {
        return null;
      }
      g := new Generator(config);
    }

    /**
     * A call that reads the clock values of the script and whose exchanges fail spuriously where the
     * script says so. Run by thread t of any system whose state word the generator holds, it is a run
     * of that thread, and it adds its identifier to the log exactly when it returns one. How it ends
     * depends on the state word and the script alone.
     */
    method NextId(clock: seq<nat>, spurious: seq<bool>, ghost s: System, ghost t: nat)
      returns (r: Outcome, ghost events: seq<Event>)
      requires config.Legal() && s.state == state && s.Of(t) == Start
      requires forall i :: 0 <= i < |clock| ==> config.Reading(clock[i])
      modifies this
      ensures Turns(config, t, spurious, events) && Exec(config, s, events).state == state
      ensures r == Called(config, old(state), clock, spurious)
      ensures Prompt(config, old(state), clock, spurious) ==>
                && Readings(events) == [clock[0]]
                && (r.Id? <==> (clock[0] - config.epoch) % Pow2(64) < Pow2(config.timestampBits))
                && (r.Id? ==> ParseId(config, r.id) == ParsedId(clock[0], config.serverId, 0))
      ensures Readings(events) <= clock && (r.Unfinished? ==> Readings(events) == clock)
      ensures r.ClockRefused? ==>
                Readings(events) != [] && Decide(config, Readings(events)[|Readings(events)| - 1], state) == Refuse
      ensures r.Unfinished? || r.ClockRefused? ==> state == old(state) && Exec(config, s, events).log == s.log
      ensures r.Id? || r.TimestampOverflow? ==>
                var s' := Exec(config, s, events);
                && s'.Of(t) == Start && |s'.log| == |s.log| + 1 && s'.log[..|s.log|] == s.log
                && s'.log[|s.log|].fate == if r.Id? then Returned(r.id) else Overflowed
    {
      hide Pow2, Decide, Pack, StateOf, Exec, Turns, Readings, EndOf, Earlier, Called, Exchanged, ParseId;
      ghost var prompt := Prompt(config, state, clock, spurious);
      if prompt {
        FirstReading(config, state, clock);
        assert clock[..1] == [clock[0]];
      }
      hide Prompt;
      CalledNothing(config, state, spurious);
      assert clock[0..] == clock && spurious[0..] == spurious;
      NoTurns(config, s, t, spurious);
      r, events := Unfinished, [];
      var k: nat, tries: nat := 0, 0;
      while k < |clock|
        invariant 0 <= k <= |clock| && 0 <= tries <= |spurious| && state == old(state) && (prompt ==> k == 0)
        invariant Called(config, state, clock, spurious) == Called(config, state, clock[k..], spurious[tries..])
        invariant Turns(config, t, spurious, events) && Readings(events) == clock[..k]
        invariant Exec(config, s, events).state == s.state && Exec(config, s, events).log == s.log
        invariant k < |clock| ==> Exec(config, s, events).Of(t) == Start
        decreases |clock| - k
      {
        r, k, tries, events := Round(clock, k, spurious, tries, s, t, events);
        if !r.Unfinished? {
          return;
        }
      }
      r := Unfinished;
      assert clock[k..] == [];
      CalledNothing(config, state, spurious[tries..]);
    }

    /** One round of the loop of NextId; Unfinished when it asks for another one, or the script has ended. */
    method Round(clock: seq<nat>, from: nat, spurious: seq<bool>, tried: nat,
                 ghost s: System, ghost t: nat, ghost before: seq<Event>)
      returns (r: Outcome, k: nat, tries: nat, ghost events: seq<Event>)
      requires config.Legal() && from < |clock| && tried <= |spurious| && s.state == state
      requires forall i :: 0 <= i < |clock| ==> config.Reading(clock[i])
      requires Turns(config, t, spurious, before) && Readings(before) == clock[..from]
      requires Exec(config, s, before).state == s.state && Exec(config, s, before).log == s.log
      requires Exec(config, s, before).Of(t) == Start
      modifies this
      ensures from < k <= |clock| && tries <= |spurious| + 1
      ensures Turns(config, t, spurious, events) && Readings(events) == clock[..k] && Exec(config, s, events).state == state
      ensures Decide(config, clock[from], old(state)).Try? && spurious == [] ==> !r.Unfinished? && k == from + 1
      ensures r.Unfinished? ==>
                && tries <= |spurious| && state == old(state) && Exec(config, s, events).log == s.log
                && (k < |clock| ==> Exec(config, s, events).Of(t) == Start)
                && Called(config, state, clock[from..], spurious[tried..])
                   == Called(config, state, clock[k..], spurious[tries..])
      ensures !r.Unfinished? ==> r == Called(config, old(state), clock[from..], spurious[tried..])
      ensures r.ClockRefused? ==>
                && state == old(state) && Exec(config, s, events).log == s.log
                && Decide(config, clock[k - 1], state) == Refuse
      ensures r.Id? || r.TimestampOverflow? ==>
                var s' := Exec(config, s, events);
                && s'.Of(t) == Start && |s'.log| == |s.log| + 1 && s'.log[..|s.log|] == s.log
                && s'.log[|s.log|].fate == if r.Id? then Returned(r.id) else Overflowed
    {
      hide Pow2, Decide, Pack, StateOf, Exec, Turns, Readings, EndOf, Earlier, Called, Exchanged;
      var now := clock[from];
      CalledStep(config, state, clock, spurious, from, tried);
      k, tries, r := from + 1, tried, Unfinished;
      events := TakeTurn(config, s, t, spurious, before, Clock(t, now));
      events := TakeTurn(config, s, t, spurious, events, Run(t, false));
      match Decide(config, now, state) {
        case Refuse =>
          r := ClockRefused;
        case Retry =>
        case Try(stamp) =>
          ExchangedStep(config, state, stamp, clock[k..], spurious, tries);
          r, events, tries := Exchange(stamp, spurious, tries, s, t, events);
        case AwaitAfter(timestamp) =>
          var next: nat;
          next, k, events := WaitNextMillis(timestamp, clock, k, s, t, spurious, events);
          if next > timestamp {
            ExchangedStep(config, state, Stamp(next, 0), clock[k..], spurious, tries);
            r, events, tries := Exchange(Stamp(next, 0), spurious, tries, s, t, events);
          } else {
            assert clock[k..] == [];
            CalledNothing(config, state, spurious[tries..]);
          }
      }
    }

    /** The exchange of the state word, and the identifier when it succeeds; Unfinished asks for another round. */
    method Exchange(stamp: Stamp, spurious: seq<bool>, tries: nat, ghost s: System, ghost t: nat, ghost before: seq<Event>)
      returns (r: Outcome, ghost events: seq<Event>, tries': nat)
      requires config.Legal() && Turns(config, t, spurious, before) && Exec(config, s, before).Of(t) == Ready(state, stamp)
      requires Exec(config, s, before).state == state
      modifies this
      ensures tries' == tries + 1 && Turns(config, t, spurious, events) && Readings(events) == Readings(before)
      ensures Exec(config, s, events).state == state && Exec(config, s, events).Of(t) == Start
      ensures r.Unfinished? <==> tries < |spurious| && spurious[tries]
      ensures !r.Unfinished? ==> r == EndOf(config, stamp) && !r.ClockRefused?
      ensures r.Unfinished? ==> state == old(state) && Exec(config, s, events).log == Exec(config, s, before).log
      ensures !r.Unfinished? ==>
                Exec(config, s, events).log
                == Exec(config, s, before).log + [Issue(stamp, if r.Id? then Returned(r.id) else Overflowed)]
    {
      hide Pow2, Pack, StateOf, Decide, Exec, Turns, Readings;
      var fails := tries < |spurious| && spurious[tries];
      tries' := tries + 1;
      events := TakeTurn(config, s, t, spurious, before, Run(t, fails));
      if fails {
        return Unfinished, events, tries';
      }
      state := StateOf(config, stamp);
      events := TakeTurn(config, s, t, spurious, events, Run(t, false));
      var offset := Sub64(stamp.timestamp, config.epoch);
      if offset > config.MaxTimestamp() {
        r := TimestampOverflow;
      } else {
        r := Id(Pack(config, offset, stamp.sequence));
      }
    }

    /** The clock is read until it is past the timestamp, or the script ends. */
    method WaitNextMillis(timestamp: nat, clock: seq<nat>, from: nat,
                          ghost s: System, ghost t: nat, ghost spurious: seq<bool>, ghost before: seq<Event>)
      returns (next: nat, k: nat, ghost events: seq<Event>)
      requires config.Legal() && from <= |clock|
      requires Turns(config, t, spurious, before) && Readings(before) == clock[..from]
      requires forall i :: 0 <= i < |clock| ==> config.Reading(clock[i])
      requires Exec(config, s, before).Of(t) == Awaiting(state, timestamp)
      ensures from <= k <= |clock| && Turns(config, t, spurious, events) && Readings(events) == clock[..k]
      ensures next <= timestamp ==> k == |clock| && forall i :: from <= i < k ==> clock[i] <= timestamp
      ensures next > timestamp ==> k > from && next == clock[k - 1] && forall i :: from <= i < k - 1 ==> clock[i] <= timestamp
      ensures next <= timestamp ==> k == |clock| && Earlier(clock[from..], timestamp) == |clock| - from
      ensures next > timestamp ==>
                k == from + Earlier(clock[from..], timestamp) + 1 && next == clock[k - 1]
      ensures Exec(config, s, events).state == Exec(config, s, before).state
      ensures Exec(config, s, events).log == Exec(config, s, before).log
      ensures next > timestamp ==> Exec(config, s, events).Of(t) == Ready(state, Stamp(next, 0))
    {
      hide Pow2, Exec, Turns, Readings;
      next, k, events := timestamp, from, before;
      while k < |clock| && next <= timestamp
        invariant from <= k <= |clock| && Turns(config, t, spurious, events) && Readings(events) == clock[..k]
        invariant if next > timestamp then Earlier(clock[from..], timestamp) + from + 1 == k && next == clock[k - 1]
                  else Earlier(clock[from..], timestamp) == k - from + Earlier(clock[k..], timestamp)
        invariant next > timestamp ==> k > from
        invariant forall i :: from <= i < k && (i < k - 1 || next <= timestamp) ==> clock[i] <= timestamp
        invariant Exec(config, s, events).state == Exec(config, s, before).state
        invariant Exec(config, s, events).log == Exec(config, s, before).log
        invariant Exec(config, s, events).Of(t)
                  == if next > timestamp then Ready(state, Stamp(next, 0)) else Awaiting(state, timestamp)
      {
        next := clock[k];
        assert clock[k..][1..] == clock[k + 1..];
        k := k + 1;
        events := TakeTurn(config, s, t, spurious, events, Clock(t, next));
      }
    }
  }

  lemma NoTurns(c: Config, s: System, t: nat, spurious: seq<bool>)
    requires c.Legal()
    ensures Exec(c, s, []) == s && Turns(c, t, spurious, []) && Readings([]) == []
  {
  }

  lemma TakeTurn(c: Config, s: System, t: nat, spurious: seq<bool>, before: seq<Event>, e: Event)
    returns (events: seq<Event>)
    requires c.Legal() && Turns(c, t, spurious, before)
    requires e.thread == t && (e.Clock? ==> c.Reading(e.now)) && (e.Run? && e.spurious ==> true in spurious)
    ensures Turns(c, t, spurious, events) && Exec(c, s, events) == Step(c, Exec(c, s, before), e)
    ensures Readings(events) == Readings(before) + (if e.Clock? then [e.now] else [])
  {
    events := before + [e];
    assert events[..|before|] == before;
  }
}
