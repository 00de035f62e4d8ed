/** Any number of threads that call one generator, step by step, under any clock. */
module SnowflakeProtocol {
  import opened BitNat
  import opened Snowflake

  /** What became of a stamp whose exchange succeeded. */
  datatype Fate = Pending | Returned(id: nat) | Overflowed

  datatype Issue = Issue(stamp: Stamp, fate: Fate)

  /** Where a thread stands in its call. */
  datatype Thread =
    | Start
    | Clocked(now: nat)
    | Awaiting(state: nat, timestamp: nat)
    | Ready(state: nat, stamp: Stamp)
    | Won(index: nat)

  /** The state word, the threads, the successful exchanges in order, and all clock readings so far. */
  datatype System = System(state: nat, threads: map<nat, Thread>, log: seq<Issue>, readings: set<nat>)
  {
    function Of(t: nat): Thread {
      if t in threads then threads[t] else Start
    }

    function Put(t: nat, th: Thread): System {
      this.(threads := threads[t := th])
    }
  }

  /** A thread reads the clock, or takes its next step; an exchange may fail spuriously. */
  datatype Event = Clock(thread: nat, now: nat) | Run(thread: nat, spurious: bool)

  const Initial := System(0, map[], [], {})

  /** The end of a call whose exchange succeeded. */
  function FateOf(c: Config, s: Stamp): Fate
    requires c.Legal()
  {
    var offset := Sub64(s.timestamp, c.epoch);
    if offset > c.MaxTimestamp() then Overflowed else Returned(Pack(c, offset, s.sequence))
  }

  function ReadClock(s: System, t: nat, now: nat): System {
    var s' := s.(readings := s.readings + {now});
    match s.Of(t)
    case Start => s'.Put(t, Clocked(now))
    case Awaiting(state, timestamp) =>
      if now <= timestamp then s' else s'.Put(t, Ready(state, Stamp(now, 0)))
    case _ => s
  }

  function Proceed(c: Config, s: System, t: nat, spurious: bool): System
    requires c.Legal()
  {
    match s.Of(t)
    case Clocked(now) => s.Put(t, AfterDecision(s.state, Decide(c, now, s.state)))
    case Ready(state, stamp) =>
      if s.state == state && !spurious then
        System(StateOf(c, stamp), s.threads[t := Won(|s.log|)], s.log + [Issue(stamp, Pending)], s.readings)
      else s.Put(t, Start)
    case Won(k) =>
      if k < |s.log| then s.(log := s.log[k := s.log[k].(fate := FateOf(c, s.log[k].stamp))]).Put(t, Start)
      else s
    case _ => s
  }

  function AfterDecision(state: nat, d: Decision): Thread {
    match d
    case Retry => Start
    case Refuse => Start
    case AwaitAfter(timestamp) => Awaiting(state, timestamp)
    case Try(stamp) => Ready(state, stamp)
  }

  function Step(c: Config, s: System, e: Event): System
    requires c.Legal()
  {
    match e
    case Clock(t, now) => ReadClock(s, t, now)
    case Run(t, spurious) => Proceed(c, s, t, spurious)
  }

  function Exec(c: Config, s: System, events: seq<Event>): System
    requires c.Legal()
  {
    if events == [] then s
    else Step(c, Exec(c, s, events[..|events| - 1]), events[|events| - 1])
  }

  /** The clock may say anything that fits the state word. */
  ghost predicate Clocks(c: Config, events: seq<Event>) {
    forall i :: 0 <= i < |events| && events[i].Clock? ==> c.Reading(events[i].now)
  }

  ghost predicate ThreadInv(c: Config, s: System, th: Thread) {
    match th
    case Start => true
    case Clocked(now) => c.Reading(now) && now in s.readings
    case Awaiting(state, timestamp) => state < Pow2(64) && timestamp == LastTimestamp(c, state)
    case Ready(state, stamp) =>
      && state < Pow2(64)
      && Storable(c, stamp) && stamp.timestamp in s.readings
      && Before(Stamp(LastTimestamp(c, state), LastSequence(c, state)), stamp)
    case Won(k) => k < |s.log| && s.log[k].fate.Pending?
  }

  ghost predicate LogInv(c: Config, s: System)
    requires c.Legal()
  {
    && (forall i :: 0 <= i < |s.log| ==>
          && Storable(c, s.log[i].stamp) && s.log[i].stamp.timestamp in s.readings
          && (s.log[i].fate.Pending? || s.log[i].fate == FateOf(c, s.log[i].stamp)))
    && (forall i, j :: 0 <= i < j < |s.log| ==> Before(s.log[i].stamp, s.log[j].stamp))
  }

  ghost predicate StateInv(c: Config, s: System) {
    s.state == if s.log == [] then 0 else StateOf(c, s.log[|s.log| - 1].stamp)
  }

  ghost predicate Inv(c: Config, s: System)
    requires c.Legal()
  {
    && LogInv(c, s) && StateInv(c, s)
    && (forall now :: now in s.readings ==> c.Reading(now))
    && (forall t :: t in s.threads ==> ThreadInv(c, s, s.threads[t]))
    && (forall t, u :: t in s.threads && u in s.threads && t != u && s.threads[t].Won? ==> s.threads[t] != s.threads[u])
  }

  /** The state word holds the last stamp, or zeroes. */
  lemma StateStamp(c: Config, s: System)
    requires c.Legal() && Inv(c, s)
    ensures s.state < Pow2(64)
    ensures var last := Stamp(LastTimestamp(c, s.state), LastSequence(c, s.state));
            last == if s.log == [] then Stamp(0, 0) else s.log[|s.log| - 1].stamp
  {
    if s.log == [] {
      Fields(0, 0, c.sequenceBits);
    } else {
      hide Pow2;
      StateFields(c, s.log[|s.log| - 1].stamp);
    }
  }

  /** What a thread decides satisfies the invariant of its next position. */
  lemma DecisionKept(c: Config, s: System, now: nat)
    requires c.Legal() && Inv(c, s) && c.Reading(now) && now in s.readings
    ensures ThreadInv(c, s, AfterDecision(s.state, Decide(c, now, s.state)))
  {
    hide Pow2, Decide, Inv;
    StateStamp(c, s);
    DecideAdvances(c, now, s.state);
    LastRead(c, s);
  }

  lemma LastRead(c: Config, s: System)
    requires c.Legal() && Inv(c, s)
    ensures s.log != [] ==> s.log[|s.log| - 1].stamp.timestamp in s.readings
  {
  }

  lemma ReadClockKept(c: Config, s: System, t: nat, now: nat)
    requires c.Legal() && Inv(c, s) && c.Reading(now)
    ensures Inv(c, ReadClock(s, t, now))
  {
    hide Pow2;
  }

  lemma ExchangeKept(c: Config, s: System, t: nat)
    requires c.Legal() && Inv(c, s) && s.Of(t).Ready? && s.Of(t).state == s.state
    ensures Inv(c, Proceed(c, s, t, false))
  {
    hide Pow2, StateOf, Storable, FateOf;
    StateStamp(c, s);
    assert ThreadInv(c, s, s.threads[t]);
  }

  lemma ReturnKept(c: Config, s: System, t: nat, spurious: bool)
    requires c.Legal() && Inv(c, s) && s.Of(t).Won?
    ensures Inv(c, Proceed(c, s, t, spurious))
  {
    hide Pow2, StateOf, Storable, FateOf;
    assert ThreadInv(c, s, s.threads[t]);
  }

  lemma PutKept(c: Config, s: System, t: nat, th: Thread)
    requires c.Legal() && Inv(c, s) && ThreadInv(c, s, th) && !th.Won?
    ensures Inv(c, s.Put(t, th))
  {
    hide Pow2, StateOf, Storable, FateOf;
  }

  lemma ProceedKept(c: Config, s: System, t: nat, spurious: bool)
    requires c.Legal() && Inv(c, s)
    ensures Inv(c, Proceed(c, s, t, spurious))
  {
    hide Inv;
    match s.Of(t)
    case Clocked(now) =>
      ThreadKnown(c, s, t);
      DecisionKept(c, s, now);
      PutKept(c, s, t, AfterDecision(s.state, Decide(c, now, s.state)));
    case Ready(state, stamp) =>
      if s.state == state && !spurious {
        ExchangeKept(c, s, t);
      } else {
        PutKept(c, s, t, Start);
      }
    case Won(k) => ReturnKept(c, s, t, spurious);
    case _ =>
  }

  lemma ThreadKnown(c: Config, s: System, t: nat)
    requires c.Legal() && Inv(c, s)
    ensures ThreadInv(c, s, s.Of(t))
  {
  }

  lemma StepKept(c: Config, s: System, e: Event)
    requires c.Legal() && Inv(c, s) && (e.Clock? ==> c.Reading(e.now))
    ensures Inv(c, Step(c, s, e))
  {
    hide Inv;
    match e
    case Clock(t, now) => ReadClockKept(c, s, t, now);
    case Run(t, spurious) => ProceedKept(c, s, t, spurious);
  }

  lemma {:induction false} Reached(c: Config, events: seq<Event>)
    requires c.Legal() && Clocks(c, events)
    ensures Inv(c, Exec(c, Initial, events))
  {
    if events == [] {
    } else {
      var n := |events| - 1;
      Reached(c, events[..n]);
      StepKept(c, Exec(c, Initial, events[..n]), events[n]);
    }
  }

  /**
   * The identifiers of all threads are distinct and increase in the order of the successful
   * exchanges.
   */
  lemma IdsIncrease(c: Config, events: seq<Event>, i: nat, j: nat)
    requires c.Legal() && Clocks(c, events)
    requires var log := Exec(c, Initial, events).log;
             i < j < |log| && log[i].fate.Returned? && log[j].fate.Returned?
    ensures var log := Exec(c, Initial, events).log;
            log[i].fate.id < log[j].fate.id
  {
    hide Pow2, Pack, Storable;
    Reached(c, events);
    var log := Exec(c, Initial, events).log;
    StateFields(c, log[i].stamp);
    StateFields(c, log[j].stamp);
    Word(c, log[i].stamp.timestamp);
    Word(c, log[j].stamp.timestamp);
    PackOrder(c, log[i].stamp, log[j].stamp);
  }

  lemma Word(c: Config, now: nat)
    requires c.Legal() && c.Reading(now)
    ensures now < Pow2(64)
  {
    Pow2Grows(64 - c.sequenceBits, 64);
  }

  /**
   * An identifier keeps the sign bit clear and is read back as its timestamp, its server and its
   * sequence number; the timestamp is a reading some thread has taken.
   */
  lemma IdsParse(c: Config, events: seq<Event>, i: nat)
    requires c.Legal() && Clocks(c, events)
    requires var log := Exec(c, Initial, events).log; i < |log| && log[i].fate.Returned?
    ensures var s := Exec(c, Initial, events);
            var stamp, id := s.log[i].stamp, s.log[i].fate.id;
            && id < Pow2(63)
            && ParseId(c, id) == ParsedId(stamp.timestamp, c.serverId, stamp.sequence)
            && stamp.timestamp in s.readings
  {
    hide Pow2, Pack, ParseId;
    Reached(c, events);
    var stamp := Exec(c, Initial, events).log[i].stamp;
    Word(c, stamp.timestamp);
    ParsePacked(c, stamp);
    PackValue(c, Sub64(stamp.timestamp, c.epoch), stamp.sequence);
  }

  /** Stamps of one timestamp lie next to each other, and there are at most as many as sequence numbers. */
  lemma PerTimestamp(c: Config, events: seq<Event>, i: nat, j: nat)
    requires c.Legal() && Clocks(c, events)
    requires var log := Exec(c, Initial, events).log;
             i <= j < |log| && log[i].stamp.timestamp == log[j].stamp.timestamp
    ensures j - i + 1 <= c.MaxSequence() + 1
    ensures forall k :: i <= k <= j ==>
              Exec(c, Initial, events).log[k].stamp.timestamp == Exec(c, Initial, events).log[i].stamp.timestamp
  {
    hide Exec;
    Reached(c, events);
    Climbs(c, Exec(c, Initial, events), i, j);
  }

  lemma {:induction false} Climbs(c: Config, s: System, i: nat, j: nat)
    requires c.Legal() && LogInv(c, s)
    requires i <= j < |s.log| && s.log[i].stamp.timestamp == s.log[j].stamp.timestamp
    ensures s.log[j].stamp.sequence - s.log[i].stamp.sequence >= j - i
    ensures forall k :: i <= k <= j ==> s.log[k].stamp.timestamp == s.log[i].stamp.timestamp
    decreases j - i
  {
    if i >= j {
    } else {
      assert Before(s.log[i].stamp, s.log[j - 1].stamp) || i == j - 1;
      assert Before(s.log[j - 1].stamp, s.log[j].stamp);
      Climbs(c, s, i, j - 1);
    }
  }

  /** Generators of different servers never return the same identifier. */
  lemma ServersApart(c: Config, d: Config, events: seq<Event>, events': seq<Event>, i: nat, j: nat)
    requires c.Legal() && d.Legal() && Clocks(c, events) && Clocks(d, events')
    requires d == c.(serverId := d.serverId, epoch := d.epoch) && c.serverId != d.serverId
    requires var log := Exec(c, Initial, events).log; i < |log| && log[i].fate.Returned?
    requires var log := Exec(d, Initial, events').log; j < |log| && log[j].fate.Returned?
    ensures Exec(c, Initial, events).log[i].fate.id != Exec(d, Initial, events').log[j].fate.id
  {
    hide Pow2, Pack, Exec;
    Reached(c, events);
    Reached(d, events');
    var s, t := Exec(c, Initial, events).log[i].stamp, Exec(d, Initial, events').log[j].stamp;
    ServersDiffer(c, d, Sub64(s.timestamp, c.epoch), s.sequence, Sub64(t.timestamp, d.epoch), t.sequence);
  }

  /** A stamp keeps its place in the log, and a call that has ended keeps its result. */
  lemma LogKept(c: Config, s: System, e: Event)
    requires c.Legal() && Inv(c, s)
    ensures var log := Step(c, s, e).log;
            && |s.log| <= |log| <= |s.log| + 1
            && forall i :: 0 <= i < |s.log| ==>
                 && log[i].stamp == s.log[i].stamp
                 && (!s.log[i].fate.Pending? ==> log[i] == s.log[i])
  {
    hide Pow2, StateOf, Storable, FateOf, Decide;
  }
}
