/** The identifier generator: the bit layout, and what one attempt decides from a clock reading. */
module Snowflake {
  import opened BitNat
  import opened Positions

  /** The template parameters, the server and the epoch in milliseconds. */
  datatype Config = Config(
    serverIdBits: nat, sequenceBits: nat, timestampBits: nat,
    tolerance: nat, waitThreshold: nat, errorThreshold: nat,
    serverId: nat, epoch: nat)
  {
    function TimestampShift(): nat { sequenceBits + serverIdBits }

    function MaxServerId(): nat { Pow2(serverIdBits) - 1 }

    function MaxSequence(): nat { Pow2(sequenceBits) - 1 }

    function MaxTimestamp(): nat { Pow2(timestampBits) - 1 }

    /** What is checked at compile time; the epoch is a 64-bit word. */
    predicate Layout() {
      && serverIdBits + sequenceBits + timestampBits == 63
      && 0 < serverIdBits <= 16 && 0 < sequenceBits <= 22 && 0 < timestampBits <= 50
      && tolerance <= waitThreshold <= errorThreshold
      && epoch < Pow2(64)
    }

    predicate Legal() {
      Layout() && serverId <= MaxServerId()
    }

    /** Clock readings that keep all their bits in the state word. */
    predicate Reading(now: nat) {
      && sequenceBits <= 64
      && now < Pow2(64 - sequenceBits)
    }
  }

  /** A timestamp and a sequence number, as the state word holds them. */
  datatype Stamp = Stamp(timestamp: nat, sequence: nat)

  ghost predicate Storable(c: Config, s: Stamp) {
    c.Reading(s.timestamp) && s.sequence <= c.MaxSequence()
  }

  function LastTimestamp(c: Config, state: nat): nat {
    Shr(state, c.sequenceBits)
  }

  function LastSequence(c: Config, state: nat): nat {
    And(state, c.MaxSequence())
  }

  function StateOf(c: Config, s: Stamp): nat {
    Or(Shl(s.timestamp, c.sequenceBits), s.sequence)
  }

  lemma StateFields(c: Config, s: Stamp)
    requires c.Legal() && Storable(c, s)
    ensures StateOf(c, s) == s.timestamp * Pow2(c.sequenceBits) + s.sequence < Pow2(64)
    ensures LastTimestamp(c, StateOf(c, s)) == s.timestamp
    ensures LastSequence(c, StateOf(c, s)) == s.sequence
  {
    hide Pow2;
    ShlExact(s.timestamp, 64 - c.sequenceBits, c.sequenceBits);
    FieldBound(s.timestamp, 64 - c.sequenceBits, c.sequenceBits);
    OrDisjoint(s.timestamp, s.sequence, c.sequenceBits);
    Fields(s.timestamp, s.sequence, c.sequenceBits);
  }

  /** Any state word is the state of the stamp read from it. */
  lemma StateSplit(c: Config, state: nat)
    requires c.Legal() && state < Pow2(64)
    ensures var s := Stamp(LastTimestamp(c, state), LastSequence(c, state));
            && Storable(c, s)
            && state == s.timestamp * Pow2(c.sequenceBits) + s.sequence
  {
    hide Pow2;
    var p := Pow2(c.sequenceBits);
    AndMask(state, c.sequenceBits);
    DivMod(state, p);
    Pow2Add(64 - c.sequenceBits, c.sequenceBits);
    if state / p >= Pow2(64 - c.sequenceBits) {
      Scaled(Pow2(64 - c.sequenceBits), state / p, p);
    }
  }

  /** Stamps are ordered by timestamp, then by sequence number. */
  predicate Before(s: Stamp, t: Stamp) {
    s.timestamp < t.timestamp || (s.timestamp == t.timestamp && s.sequence < t.sequence)
  }

  /** The order of the state words is the order of the stamps. */
  lemma StateOrder(c: Config, s: Stamp, t: Stamp)
    requires c.Legal() && Storable(c, s) && Storable(c, t)
    ensures StateOf(c, s) < StateOf(c, t) <==> Before(s, t)
  {
    hide Pow2;
    StateFields(c, s);
    StateFields(c, t);
    LexOrder(s.timestamp, s.sequence, t.timestamp, t.sequence, Pow2(c.sequenceBits));
  }

  lemma LexOrder(a: nat, b: nat, x: nat, y: nat, p: nat)
    requires b < p && y < p
    ensures a * p + b < x * p + y <==> a < x || (a == x && b < y)
  {
    if a < x {
      Scaled(a + 1, x, p);
      assert (a + 1) * p == a * p + p;
    } else if x < a {
      Scaled(x + 1, a, p);
      assert (x + 1) * p == x * p + p;
    }
  }

  /** A difference of 64-bit words, which wraps around. */
  function Sub64(a: nat, b: nat): nat
    requires b < Pow2(64)
  {
    if a >= b then a - b else a + Pow2(64) - b
  }

  /** The identifier with the given offset from the epoch. */
  function Pack(c: Config, offset: nat, sequence: nat): nat {
    Or(Or(Shl(offset, c.TimestampShift()), Shl(c.serverId, c.sequenceBits)), sequence)
  }

  datatype ParsedId = ParsedId(timestamp: nat, serverId: nat, sequence: nat)

  function ParseId(c: Config, id: nat): ParsedId {
    ParsedId(
      (Shr(id, c.TimestampShift()) + c.epoch) % Pow2(64),
      And(Shr(id, c.sequenceBits), c.MaxServerId()),
      And(id, c.MaxSequence()))
  }

  /** The three fields lie beside each other and leave the sign bit clear. */
  lemma PackValue(c: Config, offset: nat, sequence: nat)
    requires c.Legal() && offset <= c.MaxTimestamp() && sequence <= c.MaxSequence()
    ensures var p := Pow2(c.sequenceBits);
            && c.serverId * p + sequence < Pow2(c.TimestampShift())
            && Pack(c, offset, sequence) == offset * Pow2(c.TimestampShift()) + (c.serverId * p + sequence)
            && Pack(c, offset, sequence) == (offset * Pow2(c.serverIdBits) + c.serverId) * p + sequence
            && Pack(c, offset, sequence) < Pow2(63)
  {
    hide Pow2, Or, Shl;
    var shift, p := c.TimestampShift(), Pow2(c.sequenceBits);
    ShlExact(offset, c.timestampBits, shift);
    ShlExact(c.serverId, c.serverIdBits, c.sequenceBits);
    FieldBound(c.serverId, c.serverIdBits, c.sequenceBits);
    FieldBound(offset, c.timestampBits, shift);
    OrDisjoint(offset, c.serverId * p, shift);
    Pow2Add(c.serverIdBits, c.sequenceBits);
    Nested(offset, Pow2(c.serverIdBits), p, c.serverId);
    OrDisjoint(offset * Pow2(c.serverIdBits) + c.serverId, sequence, c.sequenceBits);
  }

  lemma Nested(a: nat, q: nat, p: nat, b: nat)
    ensures a * (q * p) + b * p == (a * q + b) * p
  {
  }

  /** The identifier of a stamp is read back exactly. */
  lemma ParsePacked(c: Config, s: Stamp)
    requires c.Legal() && Storable(c, s) && s.timestamp < Pow2(64)
    requires Sub64(s.timestamp, c.epoch) <= c.MaxTimestamp()
    ensures ParseId(c, Pack(c, Sub64(s.timestamp, c.epoch), s.sequence))
            == ParsedId(s.timestamp, c.serverId, s.sequence)
  {
    hide Pow2, Or, And, Shl, Shr, Pack;
    var offset, p := Sub64(s.timestamp, c.epoch), Pow2(c.sequenceBits);
    PackValue(c, offset, s.sequence);
    Fields(offset, c.serverId * p + s.sequence, c.TimestampShift());
    Fields(offset * Pow2(c.serverIdBits) + c.serverId, s.sequence, c.sequenceBits);
    Fields(offset, c.serverId, c.serverIdBits);
    ModOfSum(Pow2(64), if s.timestamp >= c.epoch then 0 else 1, s.timestamp);
  }

  /** Generators of different servers never agree, whatever their epochs and stamps. */
  lemma ServersDiffer(c: Config, d: Config, offset: nat, sequence: nat, offset': nat, sequence': nat)
    requires c.Legal() && offset <= c.MaxTimestamp() && sequence <= c.MaxSequence()
    requires d == c.(serverId := d.serverId, epoch := d.epoch) && d.Legal() && c.serverId != d.serverId
    requires offset' <= d.MaxTimestamp() && sequence' <= d.MaxSequence()
    ensures Pack(c, offset, sequence) != Pack(d, offset', sequence')
  {
    hide Pow2, Or, And, Shl, Shr, Pack;
    ServerField(c, offset, sequence);
    ServerField(d, offset', sequence');
  }

  lemma ServerField(c: Config, offset: nat, sequence: nat)
    requires c.Legal() && offset <= c.MaxTimestamp() && sequence <= c.MaxSequence()
    ensures And(Shr(Pack(c, offset, sequence), c.sequenceBits), c.MaxServerId()) == c.serverId
  {
    hide Pow2, Or, And, Shl, Shr, Pack;
    PackValue(c, offset, sequence);
    Fields(offset * Pow2(c.serverIdBits) + c.serverId, sequence, c.sequenceBits);
    Fields(offset, c.serverId, c.serverIdBits);
  }

  lemma FieldOrder(c: Config, m: nat, i: nat, n: nat, j: nat)
    requires c.Legal() && m <= c.MaxTimestamp() && n <= c.MaxTimestamp()
    requires i <= c.MaxSequence() && j <= c.MaxSequence()
    requires m < n || (m == n && i < j)
    ensures Pack(c, m, i) < Pack(c, n, j)
  {
    hide Pow2, Pack, Or, Shl;
    PackValue(c, m, i);
    PackValue(c, n, j);
    var p := c.serverId * Pow2(c.sequenceBits);
    LexOrder(m, p + i, n, p + j, Pow2(c.TimestampShift()));
  }

  /** Identifiers are ordered as their stamps, even across a wrap of the offset from the epoch. */
  lemma PackOrder(c: Config, s: Stamp, t: Stamp)
    requires c.Legal() && Storable(c, s) && Storable(c, t) && Before(s, t)
    requires s.timestamp < Pow2(64) && t.timestamp < Pow2(64)
    requires Sub64(s.timestamp, c.epoch) <= c.MaxTimestamp()
    requires Sub64(t.timestamp, c.epoch) <= c.MaxTimestamp()
    ensures Pack(c, Sub64(s.timestamp, c.epoch), s.sequence) < Pack(c, Sub64(t.timestamp, c.epoch), t.sequence)
  {
    hide Pow2, Pack, Sub64;
    OffsetOrder(c, s.timestamp, t.timestamp);
    FieldOrder(c, Sub64(s.timestamp, c.epoch), s.sequence, Sub64(t.timestamp, c.epoch), t.sequence);
  }

  lemma OffsetOrder(c: Config, a: nat, b: nat)
    requires c.Legal() && c.Reading(a) && c.Reading(b) && a <= b && b < Pow2(64)
    requires Sub64(a, c.epoch) <= c.MaxTimestamp() && Sub64(b, c.epoch) <= c.MaxTimestamp()
    ensures Sub64(a, c.epoch) < Sub64(b, c.epoch) <==> a < b
  {
    Pow2Grows(64 - c.sequenceBits, 63);
    Pow2Grows(c.timestampBits, 62);
    HalfWord();
    hide Pow2;
  }

  lemma HalfWord()
    ensures Pow2(64) == 2 * Pow2(63) && Pow2(63) == 2 * Pow2(62)
  {
  }

  /** What an attempt does after it has read the clock and the state. */
  datatype Decision =
    | Retry
    | Refuse
    | AwaitAfter(timestamp: nat)
    | Try(stamp: Stamp)

  function Decide(c: Config, now: nat, state: nat): Decision {
    var last := LastTimestamp(c, state);
    if now < last then
      var drift := last - now;
      if drift < c.tolerance then Successor(c, last, state)
      else if drift < c.waitThreshold then Retry
      else if drift < c.errorThreshold then Retry
      else Refuse
    else Successor(c, now, state)
  }

  function Successor(c: Config, timestamp: nat, state: nat): Decision {
    if timestamp == LastTimestamp(c, state) then
      var next := And(LastSequence(c, state) + 1, c.MaxSequence());
      if next == 0 then AwaitAfter(timestamp) else Try(Stamp(timestamp, next))
    else Try(Stamp(timestamp, 0))
  }

  /** The sequence number starts over exactly when it was the largest. */
  lemma NextSequence(c: Config, state: nat)
    requires c.Legal() && state < Pow2(64)
    ensures var sequence := LastSequence(c, state);
            And(sequence + 1, c.MaxSequence()) == if sequence == c.MaxSequence() then 0 else sequence + 1
  {
    hide Pow2;
    StateSplit(c, state);
    var p, sequence := Pow2(c.sequenceBits), LastSequence(c, state);
    AndMask(sequence + 1, c.sequenceBits);
    if sequence + 1 == p {
      ModOfSum(p, 1, 0);
    } else {
      ModOfSum(p, 0, sequence + 1);
    }
  }

  /**
   * What an attempt does, for every clock reading and state word: a reading after the last timestamp is
   * used at once, with sequence number 0; one within the tolerance counts on at the last timestamp, and
   * when the sequence numbers are used up the next millisecond is awaited; from the tolerance on it is
   * retried, and from the error threshold on refused.
   */
  lemma DecideExactly(c: Config, now: nat, state: nat)
    requires c.Legal() && c.Reading(now) && state < Pow2(64)
    ensures var last := Stamp(Quotient(state, Pow2(c.sequenceBits)), state % Pow2(c.sequenceBits));
            var d := Decide(c, now, state);
            && (now > last.timestamp ==> d == Try(Stamp(now, 0)))
            && (now <= last.timestamp ==>
                  var drift := last.timestamp - now;
                  d == if drift >= c.errorThreshold && drift > 0 then Refuse
                       else if drift >= c.tolerance && drift > 0 then Retry
                       else if last.sequence == Pow2(c.sequenceBits) - 1 then AwaitAfter(last.timestamp)
                       else Try(Stamp(last.timestamp, last.sequence + 1)))
  {
    hide Pow2;
    StateSplit(c, state);
    NextSequence(c, state);
    AndMask(state, c.sequenceBits);
  }

  /**
   * An attempt that goes on has a stamp after the one in the state, with the later of the two
   * timestamps; it refuses exactly from the error threshold on.
   */
  lemma DecideAdvances(c: Config, now: nat, state: nat)
    requires c.Legal() && c.Reading(now) && state < Pow2(64)
    ensures var last := Stamp(LastTimestamp(c, state), LastSequence(c, state));
            var d := Decide(c, now, state);
            && (d.Refuse? <==> now < last.timestamp && last.timestamp - now >= c.errorThreshold)
            && (d.Retry? <==> now < last.timestamp && c.tolerance <= last.timestamp - now < c.errorThreshold)
            && (d.AwaitAfter? <==>
                  && last.sequence == c.MaxSequence()
                  && (now == last.timestamp || (now < last.timestamp && last.timestamp - now < c.tolerance)))
            && (d.AwaitAfter? ==> d.timestamp == last.timestamp)
            && (d.Try? ==>
                  && Storable(c, d.stamp) && Before(last, d.stamp)
                  && d.stamp.timestamp == (if now < last.timestamp then last.timestamp else now)
                  && d.stamp.sequence == if d.stamp.timestamp == last.timestamp then last.sequence + 1 else 0)
  {
    hide Pow2;
    StateSplit(c, state);
    NextSequence(c, state);
  }
}
