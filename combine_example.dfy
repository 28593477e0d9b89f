/**
 * The combine-latest consumer of ReactiveMicroservices/CombineExample.cs and
 * the producers that drive it.
 *
 * A Producer emits freshly constructed events; a Consumer keeps the latest
 * event of each side and, whenever one side fires while the other side's
 * slot is already set, emits the pair of the two latest events. The
 * threads that run the producers are abstracted away: the consumer sees an
 * arbitrary interleaving of side-1 and side-2 events, one at a time, and
 * the lemmas below hold for every such interleaving.
 */
module CombineExample {
  import opened Wrappers

  /** ExampleEventArgs1 with the id its constructor drew (a Guid in the source). */
  datatype ExampleEventArgs1 = ExampleEventArgs1(eventId: nat)

  /** ExampleEventArgs2 with the id its constructor drew. */
  datatype ExampleEventArgs2 = ExampleEventArgs2(eventId: nat)

  /** The combined event: the two latest events at the moment of emission. */
  datatype ExampleEventArgs3 = ExampleEventArgs3(event1: ExampleEventArgs1, event2: ExampleEventArgs2)

  /**
   * A handler added to a producer's OnValueProduced event: the consumer's
   * OnEvent1Received (side 1) or OnEvent2Received (side 2).
   */
  datatype Handler = Side1Handler(consumer: Consumer) | Side2Handler(consumer: Consumer)

  /**
   * What n successive factory calls yield when the ids start, start + 1, ...
   * stand in for Guid.NewGuid: the i-th value is built from id start + i.
   */
  function Fresh<T>(constr: nat -> T, start: nat, n: nat): (r: seq<T>)
    ensures |r| == n
    ensures forall k :: 0 <= k < n ==> r[k] == constr(start + k)
  {
    if n == 0 then [] else Fresh(constr, start, n - 1) + [constr(start + n - 1)]
  }

  /** Each value comes from its own id, so an injective factory never yields the same value twice. */
  lemma FreshDistinct<T>(constr: nat -> T, start: nat, n: nat, i: nat, j: nat)
    requires forall a, b :: constr(a) == constr(b) ==> a == b
    requires i < j < n
    ensures Fresh(constr, start, n)[i] != Fresh(constr, start, n)[j]
  {
  }

  lemma {:induction false} FreshSplit<T>(constr: nat -> T, start: nat, m: nat, n: nat)
    ensures Fresh(constr, start, m) + Fresh(constr, start + m, n) == Fresh(constr, start, m + n)
  {
    if n > 0 {
      FreshSplit(constr, start, m, n - 1);
    }
  }

  class Producer<T> {
    /** The delay between two emissions of Run; time is not modelled. */
    const timeout: int
    /** The factory `_constr`, given the fresh id its call draws. */
    const constr: nat -> T
    /** The next fresh id. */
    var nextId: nat
    /** The handlers added to OnValueProduced, in subscription order. */
    var handlers: seq<Handler>
    /** Every value passed to OnValueProduced, in order. */
    var produced: seq<T>

    /** Every value produced so far came from its own factory call. */
    ghost predicate Valid()
      reads this
    {
      produced == Fresh(constr, 0, nextId)
    }

    constructor (timeout: int, constr: nat -> T)
      ensures Valid()
      ensures this.timeout == timeout && this.constr == constr
      ensures nextId == 0 && handlers == [] && produced == []
    {
      this.timeout := timeout;
      this.constr := constr;
      nextId := 0;
      handlers := [];
      produced := [];
    }

    /** Emits one freshly constructed value. */
    method CallProduce()
      requires Valid()
      modifies this`nextId, this`produced
      ensures Valid()
      ensures nextId == old(nextId) + 1
      ensures produced == old(produced) + [constr(old(nextId))]
    {
      var e := constr(nextId);
      nextId := nextId + 1;
      produced := produced + [e];
    }

    /**
     * Emits `iterations` freshly constructed values, one per pass of the
     * loop (none when iterations is not positive).
     */
    method Run(iterations: int)
      requires Valid()
      modifies this`nextId, this`produced
      ensures Valid()
      ensures nextId == old(nextId) + (if iterations < 0 then 0 else iterations)
      ensures produced == old(produced) + Fresh(constr, old(nextId), if iterations < 0 then 0 else iterations)
    {
      ghost var start := nextId;
      var i := 0;
      while i < iterations
        invariant 0 <= i && (iterations >= 0 ==> i <= iterations)
        invariant iterations < 0 ==> i == 0
        invariant nextId == start + i
        invariant Valid()
      {
        var e := constr(nextId);
        nextId := nextId + 1;
        produced := produced + [e];
        i := i + 1;
      }
      FreshSplit(constr, 0, start, i);
    }
  }

  /** One event as the consumer receives it: from the first or from the second producer. */
  datatype Received = Got1(first: ExampleEventArgs1) | Got2(second: ExampleEventArgs2)

  /** Which side each event of a trace came from: true for the first producer. */
  function Sides(t: seq<Received>): (r: seq<bool>)
    ensures |r| == |t|
  {
    if t == [] then [] else Sides(t[..|t| - 1]) + [t[|t| - 1].Got1?]
  }

  /** Receiving the event that a schedule names next extends the matched prefix of that schedule. */
  lemma SidesSnoc(t: seq<Received>, ev: Received, schedule: seq<bool>, i: nat)
    requires i < |schedule| && Sides(t) == schedule[..i] && ev.Got1? == schedule[i]
    ensures Sides(t + [ev]) == schedule[..i + 1]
  {
    assert (t + [ev])[..|t|] == t;
    assert schedule[..i + 1] == schedule[..i] + [schedule[i]];
  }

  /** Sides tags each event with its side. */
  lemma {:induction false} SidesAt(t: seq<Received>, i: nat)
    requires i < |t|
    ensures Sides(t)[i] == t[i].Got1?
  {
    if i < |t| - 1 {
      SidesAt(t[..|t| - 1], i);
    }
  }

  /** The side-1 events of a trace, in order of arrival. */
  function Events1(t: seq<Received>): (r: seq<ExampleEventArgs1>)
    ensures |r| <= |t|
  {
    if t == [] then []
    else Events1(t[..|t| - 1]) + if t[|t| - 1].Got1? then [t[|t| - 1].first] else []
  }

  /** The side-2 events of a trace, in order of arrival. */
  function Events2(t: seq<Received>): (r: seq<ExampleEventArgs2>)
    ensures |r| <= |t|
  {
    if t == [] then []
    else Events2(t[..|t| - 1]) + if t[|t| - 1].Got2? then [t[|t| - 1].second] else []
  }

  /** Every event received belongs to exactly one side. */
  lemma {:induction false} EventsPartition(t: seq<Received>)
    ensures |Events1(t)| + |Events2(t)| == |t|
  {
    if t != [] {
      EventsPartition(t[..|t| - 1]);
    }
  }

  /**
   * Receiving one more event extends the sequence of its own side only: two
   * logs that hold a base followed by the events of each side of t, and
   * then ev on its own side, hold the events of each side of t + [ev].
   */
  lemma EventsSnoc(t: seq<Received>, ev: Received, base1: seq<ExampleEventArgs1>, base2: seq<ExampleEventArgs2>,
                   log1: seq<ExampleEventArgs1>, log2: seq<ExampleEventArgs2>)
    requires log1 == base1 + Events1(t) + if ev.Got1? then [ev.first] else []
    requires log2 == base2 + Events2(t) + if ev.Got2? then [ev.second] else []
    ensures log1 == base1 + Events1(t + [ev]) && log2 == base2 + Events2(t + [ev])
  {
    assert (t + [ev])[..|t|] == t;
  }

  /** The latest side-1 event of a trace, if any. */
  function Latest1(t: seq<Received>): (r: Option<ExampleEventArgs1>)
  {
    if t == [] then None
    else if t[|t| - 1].Got1? then Some(t[|t| - 1].first)
    else Latest1(t[..|t| - 1])
  }

  /** The latest side-2 event of a trace, if any. */
  function Latest2(t: seq<Received>): (r: Option<ExampleEventArgs2>)
  {
    if t == [] then None
    else if t[|t| - 1].Got2? then Some(t[|t| - 1].second)
    else Latest2(t[..|t| - 1])
  }

  /** The position of the first side-1 event of a trace, if any. */
  function First1(t: seq<Received>): (r: Option<nat>)
  {
    if t == [] then None
    else match First1(t[..|t| - 1])
      case Some(i) => Some(i)
      case None => if t[|t| - 1].Got1? then Some(|t| - 1) else None
  }

  /** The position of the first side-2 event of a trace, if any. */
  function First2(t: seq<Received>): (r: Option<nat>)
  {
    if t == [] then None
    else match First2(t[..|t| - 1])
      case Some(i) => Some(i)
      case None => if t[|t| - 1].Got2? then Some(|t| - 1) else None
  }

  /**
   * The position from which both sides have fired: the first event of
   * whichever side fired second.
   */
  function ArmedAt(t: seq<Received>): (r: Option<nat>)
  {
    match (First1(t), First2(t))
    case (Some(i), Some(j)) => Some(if i < j then j else i)
    case _ => None
  }

  /** What the consumer emits on receiving `ev` after `before`. */
  function Emission(before: seq<Received>, ev: Received): (r: seq<ExampleEventArgs3>)
  {
    match ev
    case Got1(e) => if Latest2(before).Some? then [ExampleEventArgs3(e, Latest2(before).value)] else []
    case Got2(e) => if Latest1(before).Some? then [ExampleEventArgs3(Latest1(before).value, e)] else []
  }

  /** Every combined event emitted while the consumer receives trace t. */
  function Combined(t: seq<Received>): (r: seq<ExampleEventArgs3>)
  {
    if t == [] then [] else Combined(t[..|t| - 1]) + Emission(t[..|t| - 1], t[|t| - 1])
  }

  /** Receiving one more event: how the latest values, the first positions and the emissions extend. */
  lemma Step(t: seq<Received>, ev: Received)
    ensures Latest1(t + [ev]) == if ev.Got1? then Some(ev.first) else Latest1(t)
    ensures Latest2(t + [ev]) == if ev.Got2? then Some(ev.second) else Latest2(t)
    ensures First1(t + [ev]) == if First1(t).Some? then First1(t) else if ev.Got1? then Some(|t|) else None
    ensures First2(t + [ev]) == if First2(t).Some? then First2(t) else if ev.Got2? then Some(|t|) else None
    ensures Combined(t + [ev]) == Combined(t) + Emission(t, ev)
  {
    assert (t + [ev])[..|t|] == t;
  }

  /** Slot 1 is empty exactly when side 1 never fired. */
  lemma {:induction false} Latest1None(t: seq<Received>)
    ensures Latest1(t).None? <==> forall i :: 0 <= i < |t| ==> t[i].Got2?
  {
    if t != [] {
      Latest1None(t[..|t| - 1]);
    }
  }

  /** A set slot 1 holds the last side-1 event: only side-2 events follow it. */
  lemma {:induction false} Latest1IsLast(t: seq<Received>)
    ensures Latest1(t).Some? ==>
      exists i :: 0 <= i < |t| && t[i] == Got1(Latest1(t).value) && forall j :: i < j < |t| ==> t[j].Got2?
  {
    if t != [] {
      var before, ev := t[..|t| - 1], t[|t| - 1];
      if ev.Got1? {
        assert t[|t| - 1] == Got1(Latest1(t).value);
      } else if Latest1(before).Some? {
        Latest1IsLast(before);
        var i :| 0 <= i < |before| && before[i] == Got1(Latest1(before).value) && forall j :: i < j < |before| ==> before[j].Got2?;
        assert t[i] == before[i];
        assert forall j :: i < j < |t| ==> t[j].Got2? by {
          assert forall j :: i < j < |before| ==> t[j] == before[j];
        }
      }
    }
  }

  /** Slot 2 is empty exactly when side 2 never fired. */
  lemma {:induction false} Latest2None(t: seq<Received>)
    ensures Latest2(t).None? <==> forall i :: 0 <= i < |t| ==> t[i].Got1?
  {
    if t != [] {
      Latest2None(t[..|t| - 1]);
    }
  }

  /** A set slot 2 holds the last side-2 event: only side-1 events follow it. */
  lemma {:induction false} Latest2IsLast(t: seq<Received>)
    ensures Latest2(t).Some? ==>
      exists i :: 0 <= i < |t| && t[i] == Got2(Latest2(t).value) && forall j :: i < j < |t| ==> t[j].Got1?
  {
    if t != [] {
      var before, ev := t[..|t| - 1], t[|t| - 1];
      if ev.Got2? {
        assert t[|t| - 1] == Got2(Latest2(t).value);
      } else if Latest2(before).Some? {
        Latest2IsLast(before);
        var i :| 0 <= i < |before| && before[i] == Got2(Latest2(before).value) && forall j :: i < j < |before| ==> before[j].Got1?;
        assert t[i] == before[i];
        assert forall j :: i < j < |t| ==> t[j].Got1? by {
          assert forall j :: i < j < |before| ==> t[j] == before[j];
        }
      }
    }
  }

  /** Slot 1 holds the last of the side-1 events, and slot 2 the last of the side-2 events. */
  lemma {:induction false} LatestIsLastEvent(t: seq<Received>)
    ensures Latest1(t) == if Events1(t) == [] then None else Some(Events1(t)[|Events1(t)| - 1])
    ensures Latest2(t) == if Events2(t) == [] then None else Some(Events2(t)[|Events2(t)| - 1])
  {
    if t != [] {
      LatestIsLastEvent(t[..|t| - 1]);
    }
  }

  /** First1 is the position of the first side-1 event: only side-2 events precede it. */
  lemma {:induction false} First1IsFirst(t: seq<Received>)
    ensures First1(t).Some? ==>
      First1(t).value < |t| && t[First1(t).value].Got1? && forall j :: 0 <= j < First1(t).value ==> t[j].Got2?
  {
    if t != [] {
      var before, ev := t[..|t| - 1], t[|t| - 1];
      if First1(before).Some? {
        First1IsFirst(before);
      } else if ev.Got1? {
        SetIffFired(before);
        Latest1None(before);
      }
    }
  }

  /** First2 is the position of the first side-2 event: only side-1 events precede it. */
  lemma {:induction false} First2IsFirst(t: seq<Received>)
    ensures First2(t).Some? ==>
      First2(t).value < |t| && t[First2(t).value].Got2? && forall j :: 0 <= j < First2(t).value ==> t[j].Got1?
  {
    if t != [] {
      var before, ev := t[..|t| - 1], t[|t| - 1];
      if First2(before).Some? {
        First2IsFirst(before);
      } else if ev.Got2? {
        SetIffFired(before);
        Latest2None(before);
      }
    }
  }

  /** A slot is set exactly when its side has fired. */
  lemma {:induction false} SetIffFired(t: seq<Received>)
    ensures Latest1(t).Some? <==> First1(t).Some?
    ensures Latest2(t).Some? <==> First2(t).Some?
  {
    if t != [] {
      SetIffFired(t[..|t| - 1]);
    }
  }

  /** A first position lies inside the trace. */
  lemma {:induction false} FirstBounded(t: seq<Received>)
    ensures First1(t).Some? ==> First1(t).value < |t|
    ensures First2(t).Some? ==> First2(t).value < |t|
  {
    if t != [] {
      FirstBounded(t[..|t| - 1]);
    }
  }

  /**
   * Count and first emission: nothing is emitted until both sides have
   * fired, and from the first event of the side that fired second on,
   * every event emits exactly one combined event.
   */
  lemma {:induction false} CombinedCount(t: seq<Received>)
    ensures |Combined(t)| == match ArmedAt(t) case None => 0 case Some(f) => |t| - f
  {
    if t != [] {
      CombinedCount(t[..|t| - 1]);
      EmissionCount(t);
    }
  }

  /**
   * One event emits exactly when both sides have fired once it is
   * received; the armed position stays put once set, and is the event's
   * own position when that event arms the consumer.
   */
  lemma EmissionCount(t: seq<Received>)
    requires t != []
    ensures var before := t[..|t| - 1];
      && |Emission(before, t[|t| - 1])| == (if ArmedAt(t).Some? then 1 else 0)
      && (ArmedAt(before).Some? ==> ArmedAt(t) == ArmedAt(before))
      && (ArmedAt(before).None? && ArmedAt(t).Some? ==> ArmedAt(t).value == |before|)
  {
    SetIffFired(t[..|t| - 1]);
    FirstBounded(t[..|t| - 1]);
  }

  /** Gating: no combined event while either slot is still empty. */
  lemma Gating(t: seq<Received>)
    requires Latest1(t).None? || Latest2(t).None?
    ensures Combined(t) == []
  {
    CombinedCount(t);
    SetIffFired(t);
  }

  /**
   * The k-th combined event of t pairs the latest side-1 event with the
   * latest side-2 event as of event ArmedAt(t) + k, the event that
   * triggered it.
   */
  ghost predicate LatestPairAt(t: seq<Received>, k: nat)
  {
    && k < |Combined(t)|
    && ArmedAt(t).Some? && ArmedAt(t).value + k < |t|
    && var upTo := t[..ArmedAt(t).value + k + 1];
       && Latest1(upTo).Some? && Latest2(upTo).Some?
       && Combined(t)[k] == ExampleEventArgs3(Latest1(upTo).value, Latest2(upTo).value)
  }

  /** Freshness: every combined event is made of the latest values at the moment it was emitted. */
  lemma {:induction false} CombinedFresh(t: seq<Received>, k: nat)
    requires k < |Combined(t)|
    ensures LatestPairAt(t, k)
  {
    if k < |Combined(t[..|t| - 1])| {
      CombinedFresh(t[..|t| - 1], k);
      LatestPairKept(t, k);
    } else {
      LatestPairLast(t);
    }
  }

  /** An earlier emission keeps its position and its triggering prefix when one more event arrives. */
  lemma LatestPairKept(t: seq<Received>, k: nat)
    requires t != [] && LatestPairAt(t[..|t| - 1], k)
    ensures LatestPairAt(t, k)
  {
    var before := t[..|t| - 1];
    var f := ArmedAt(before).value;
    assert ArmedAt(t) == ArmedAt(before);
    assert t[..f + k + 1] == before[..f + k + 1];
  }

  /** The emission triggered by the last event pairs the latest values of the whole trace. */
  lemma LatestPairLast(t: seq<Received>)
    requires t != [] && |Combined(t[..|t| - 1])| < |Combined(t)|
    ensures LatestPairAt(t, |Combined(t[..|t| - 1])|)
  {
    var k := |Combined(t[..|t| - 1])|;
    assert Latest1(t).Some? && Latest2(t).Some?;
    assert Combined(t)[k] == ExampleEventArgs3(Latest1(t).value, Latest2(t).value);
    CombinedCount(t);
    assert ArmedAt(t).value + k + 1 == |t|;
    assert t[..ArmedAt(t).value + k + 1] == t;
  }

  /**
   * Once both slots are set they stay set, and every further event from
   * either side emits exactly one combined event, made of the latest values.
   */
  lemma OnceArmed(t: seq<Received>, ev: Received)
    requires Latest1(t).Some? && Latest2(t).Some?
    ensures Latest1(t + [ev]).Some? && Latest2(t + [ev]).Some?
    ensures Combined(t + [ev]) ==
      Combined(t) + [ExampleEventArgs3(Latest1(t + [ev]).value, Latest2(t + [ev]).value)]
  {
    Step(t, ev);
  }

  class Consumer {
    var e1: Option<ExampleEventArgs1>
    var e2: Option<ExampleEventArgs2>
    /** Every combined event passed to OnCombinedEvents, in order. */
    var emitted: seq<ExampleEventArgs3>
    /** Every event received so far, in order of arrival. */
    ghost var received: seq<Received>

    /** The slots hold the latest event of each side, and emitted is what the trace yields. */
    ghost predicate Valid()
      reads this
    {
      e1 == Latest1(received) && e2 == Latest2(received) && emitted == Combined(received)
    }

    /** Subscribes OnEvent1Received to the first producer and OnEvent2Received to the second. */
    constructor (p1: Producer<ExampleEventArgs1>, p2: Producer<ExampleEventArgs2>)
      modifies p1`handlers, p2`handlers
      ensures Valid()
      ensures e1 == None && e2 == None && emitted == [] && received == []
      ensures p1.handlers == old(p1.handlers) + [Side1Handler(this)]
      ensures p2.handlers == old(p2.handlers) + [Side2Handler(this)]
    {
      e1, e2 := None, None;
      emitted := [];
      received := [];
      new;
      p1.handlers := p1.handlers + [Side1Handler(this)];
      p2.handlers := p2.handlers + [Side2Handler(this)];
    }

    /** Stores a side-1 event; emits the pair of latest events if side 2 has fired. */
    method OnEvent1Received(e: ExampleEventArgs1)
      requires Valid()
      modifies this
      ensures Valid()
      ensures received == old(received) + [Got1(e)]
      ensures e1 == Some(e) && e2 == old(e2)
      ensures emitted == old(emitted) + if e2.Some? then [ExampleEventArgs3(e1.value, e2.value)] else []
    {
      e1 := Some(e);
      if e2.Some? {
        emitted := emitted + [ExampleEventArgs3(e1.value, e2.value)];
      }
      Step(received, Got1(e));
      received := received + [Got1(e)];
    }

    /** Stores a side-2 event; emits the pair of latest events if side 1 has fired. */
    method OnEvent2Received(e: ExampleEventArgs2)
      requires Valid()
      modifies this
      ensures Valid()
      ensures received == old(received) + [Got2(e)]
      ensures e2 == Some(e) && e1 == old(e1)
      ensures emitted == old(emitted) + if e1.Some? then [ExampleEventArgs3(e1.value, e2.value)] else []
    {
      e2 := Some(e);
      if e1.Some? {
        emitted := emitted + [ExampleEventArgs3(e1.value, e2.value)];
      }
      Step(received, Got2(e));
      received := received + [Got2(e)];
    }
  }

  /**
   * CallProduce on a producer whose only subscriber is the consumer's
   * OnEvent1Received: the fresh event reaches that handler (and no other).
   */
  method Produce1(p1: Producer<ExampleEventArgs1>, c: Consumer) returns (e: ExampleEventArgs1)
    requires p1.Valid() && c.Valid()
    requires p1.handlers == [Side1Handler(c)]
    modifies p1`nextId, p1`produced, c
    ensures p1.Valid() && c.Valid()
    ensures p1.produced == old(p1.produced) + [e] && e == p1.constr(old(p1.nextId))
    ensures c.received == old(c.received) + [Got1(e)]
  {
    p1.CallProduce();
    e := p1.produced[|p1.produced| - 1];
    c.OnEvent1Received(e);
  }

  /**
   * CallProduce on a producer whose only subscriber is the consumer's
   * OnEvent2Received: the fresh event reaches that handler (and no other).
   */
  method Produce2(p2: Producer<ExampleEventArgs2>, c: Consumer) returns (e: ExampleEventArgs2)
    requires p2.Valid() && c.Valid()
    requires p2.handlers == [Side2Handler(c)]
    modifies p2`nextId, p2`produced, c
    ensures p2.Valid() && c.Valid()
    ensures p2.produced == old(p2.produced) + [e] && e == p2.constr(old(p2.nextId))
    ensures c.received == old(c.received) + [Got2(e)]
  {
    p2.CallProduce();
    e := p2.produced[|p2.produced| - 1];
    c.OnEvent2Received(e);
  }

  /** One emission, from the first producer if `first` holds and from the second otherwise. */
  method Fire(p1: Producer<ExampleEventArgs1>, p2: Producer<ExampleEventArgs2>, c: Consumer, first: bool)
    returns (ev: Received)
    requires p1.Valid() && p2.Valid() && c.Valid()
    requires p1.handlers == [Side1Handler(c)] && p2.handlers == [Side2Handler(c)]
    modifies p1`nextId, p1`produced, p2`nextId, p2`produced, c
    ensures p1.Valid() && p2.Valid() && c.Valid()
    ensures c.received == old(c.received) + [ev] && ev.Got1? == first
    ensures p1.produced == old(p1.produced) + if ev.Got1? then [ev.first] else []
    ensures p2.produced == old(p2.produced) + if ev.Got2? then [ev.second] else []
  {
    if first {
      var e := Produce1(p1, c);
      ev := Got1(e);
    } else {
      var e := Produce2(p2, c);
      ev := Got2(e);
    }
  }

  /**
   * The wiring of the example: a producer of side-1 events every 15 ms, a
   * producer of side-2 events every 40 ms, and a consumer subscribed to both.
   */
  method Wire() returns (p1: Producer<ExampleEventArgs1>, p2: Producer<ExampleEventArgs2>, c: Consumer)
    ensures p1.Valid() && p2.Valid() && c.Valid()
    ensures p1.handlers == [Side1Handler(c)] && p2.handlers == [Side2Handler(c)]
    ensures c.received == [] && fresh(p1) && fresh(p2) && fresh(c)
    ensures p1.timeout == 15 && p2.timeout == 40
    ensures forall n: nat :: p1.constr(n) == ExampleEventArgs1(n)
    ensures forall n: nat :: p2.constr(n) == ExampleEventArgs2(n)
    ensures p1.nextId == 0 && p1.produced == [] && p2.nextId == 0 && p2.produced == []
  {
    p1 := new Producer<ExampleEventArgs1>(15, (n: nat) => ExampleEventArgs1(n));
    p2 := new Producer<ExampleEventArgs2>(40, (n: nat) => ExampleEventArgs2(n));
    c := new Consumer(p1, p2);
  }

  /**
   * One pass of Drive's loop: the i-th emission of the schedule extends the
   * trace received so far, and the producers' logs with it.
   */
  method FireScheduled(p1: Producer<ExampleEventArgs1>, p2: Producer<ExampleEventArgs2>, c: Consumer,
                       schedule: seq<bool>, i: nat, ghost trace: seq<Received>, ghost base0: seq<Received>,
                       ghost base1: seq<ExampleEventArgs1>, ghost base2: seq<ExampleEventArgs2>)
    returns (ev: Received)
    requires i < |schedule|
    requires p1.Valid() && p2.Valid() && c.Valid()
    requires p1.handlers == [Side1Handler(c)] && p2.handlers == [Side2Handler(c)]
    requires c.received == base0 + trace && Sides(trace) == schedule[..i]
    requires p1.produced == base1 + Events1(trace) && p2.produced == base2 + Events2(trace)
    modifies p1`nextId, p1`produced, p2`nextId, p2`produced, c
    ensures p1.Valid() && p2.Valid() && c.Valid()
    ensures c.received == base0 + (trace + [ev]) && Sides(trace + [ev]) == schedule[..i + 1]
    ensures p1.produced == base1 + Events1(trace + [ev]) && p2.produced == base2 + Events2(trace + [ev])
  {
    ev := Fire(p1, p2, c, schedule[i]);
    SidesSnoc(trace, ev, schedule, i);
    EventsSnoc(trace, ev, base1, base2, p1.produced, p2.produced);
  }

  /**
   * Fires the producers in the order `schedule` gives: the consumer receives
   * exactly that order, and what each producer emitted is exactly the events
   * of its side, in the order received.
   */
  method Drive(p1: Producer<ExampleEventArgs1>, p2: Producer<ExampleEventArgs2>, c: Consumer, schedule: seq<bool>)
    returns (trace: seq<Received>)
    requires p1.Valid() && p2.Valid() && c.Valid()
    requires p1.handlers == [Side1Handler(c)] && p2.handlers == [Side2Handler(c)]
    modifies p1`nextId, p1`produced, p2`nextId, p2`produced, c
    ensures p1.Valid() && p2.Valid() && c.Valid()
    ensures p1.handlers == old(p1.handlers) && p2.handlers == old(p2.handlers)
    ensures c.received == old(c.received) + trace && Sides(trace) == schedule
    ensures forall i :: 0 <= i < |trace| ==> trace[i].Got1? == schedule[i]
    ensures p1.produced == old(p1.produced) + Events1(trace)
    ensures p2.produced == old(p2.produced) + Events2(trace)
  {
    ghost var base0, base1, base2 := c.received, p1.produced, p2.produced;
    trace := [];
    var i := 0;
    while i < |schedule|
      invariant 0 <= i <= |schedule|
      invariant p1.Valid() && p2.Valid() && c.Valid()
      invariant p1.handlers == [Side1Handler(c)] && p2.handlers == [Side2Handler(c)]
      invariant c.received == base0 + trace && Sides(trace) == schedule[..i]
      invariant p1.produced == base1 + Events1(trace) && p2.produced == base2 + Events2(trace)
    {
      var ev := FireScheduled(p1, p2, c, schedule, i, trace, base0, base1, base2);
      trace := trace + [ev];
      i := i + 1;
    }
    assert schedule[..i] == schedule;
    forall j | 0 <= j < |trace|
      ensures trace[j].Got1? == schedule[j]
    {
      SidesAt(trace, j);
    }
  }

  /**
   * When each side's events are what a producer with the example's factory
   * built from id 0 on, the k-th event of either side carries id k.
   */
  lemma NumberedFromZero(trace: seq<Received>, constr1: nat -> ExampleEventArgs1, n1: nat,
                         constr2: nat -> ExampleEventArgs2, n2: nat)
    requires forall m: nat :: constr1(m) == ExampleEventArgs1(m)
    requires forall m: nat :: constr2(m) == ExampleEventArgs2(m)
    requires Events1(trace) == Fresh(constr1, 0, n1) && Events2(trace) == Fresh(constr2, 0, n2)
    ensures forall k :: 0 <= k < |Events1(trace)| ==> Events1(trace)[k] == ExampleEventArgs1(k)
    ensures forall k :: 0 <= k < |Events2(trace)| ==> Events2(trace)[k] == ExampleEventArgs2(k)
  {
  }

  /**
   * Two producers wired to one consumer, fired in an arbitrary order:
   * `schedule[i]` says whether the i-th emission comes from the first
   * producer or from the second. Each produced event reaches the handler
   * its producer was given, so the k-th side-1 (side-2) event received is
   * the k-th value the first (second) producer built, and the consumer's
   * output is the combination of the interleaved trace.
   */
  method Interleave(schedule: seq<bool>) returns (trace: seq<Received>, combined: seq<ExampleEventArgs3>)
    ensures Sides(trace) == schedule
    ensures forall i :: 0 <= i < |trace| ==> trace[i].Got1? == schedule[i]
    ensures forall k :: 0 <= k < |Events1(trace)| ==> Events1(trace)[k] == ExampleEventArgs1(k)
    ensures forall k :: 0 <= k < |Events2(trace)| ==> Events2(trace)[k] == ExampleEventArgs2(k)
    ensures combined == Combined(trace)
    ensures |combined| == match ArmedAt(trace) case None => 0 case Some(f) => |trace| - f
  {
    var p1, p2, c := Wire();
    trace := Drive(p1, p2, c, schedule);
    assert c.received == trace;
    combined := c.emitted;
    CombinedCount(trace);
    NumberedFromZero(trace, p1.constr, p1.nextId, p2.constr, p2.nextId);
  }
}
