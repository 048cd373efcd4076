/** The track timing engine: one stopwatch shared by every lane (the gun),
    a finish time captured per lane against it, and the ranking of the
    lanes by time. The wall clock is the parameter `now` (milliseconds);
    fresh athlete identities are parameters too. */
module TrackTiming {
  import opened Types
  import opened JsText
  import Ranking

  /** The athlete put in lane `i + 1` when the participant list runs out. */
  function PlaceholderAthlete(id: string, i: nat): Athlete {
    Athlete(id, "Athlete " + NatToString(i + 1), None, None)
  }

  /** `fmt(ms)`: "--" for no time, else whole seconds, a point and the
      milliseconds padded to three characters. Seconds are rounded down
      (Dafny's `/` with a positive divisor), and the remainder keeps the sign
      of `ms`, as JavaScript's `%` does. */
  function Fmt(ms: Option<int>): (r: string)
    ensures ms.None? <==> r == "--"
  {
    match ms
    case None => "--"
    case Some(t) =>
      var seconds := t / 1000;
      var rem := if t >= 0 then t % 1000 else -((-t) % 1000);
      var text := IntToString(seconds) + "." + PadStart(IntToString(rem), 3, '0');
      assert text[|IntToString(seconds)|] == '.';
      text
  }

  /** A time prints as seconds without a leading zero (a lone "0" aside), a
      point and exactly three digits, and reading the two digit groups back
      gives `seconds * 1000 + fraction == ms`. */
  lemma FmtReadsBack(ms: nat)
    ensures var r := Fmt(Some(ms));
      && |r| >= 5 && r[|r| - 4] == '.'
      && AllDigits(r[..|r| - 4]) && AllDigits(r[|r| - 3..])
      && (r[0] != '0' || r[1] == '.')
      && DecimalValue(r[..|r| - 4]) * 1000 + DecimalValue(r[|r| - 3..]) == ms
  {
    var s := NatToString(ms / 1000);
    var m := NatToString(ms % 1000);
    NatToStringReadsBack(ms / 1000);
    NatToStringReadsBack(ms % 1000);
    NatToStringBelow1000(ms % 1000);
    PadStartZeros(m, 3);
    var f := PadStart(m, 3, '0');
    var r := s + "." + f;
    assert Fmt(Some(ms)) == r;
    assert r[..|r| - 4] == s;
    assert r[|r| - 3..] == f;
  }

  /** A lane's sort key in `finalize`: its time, or last when it has none
      (`timeMs ?? Infinity`). */
  function LaneRank(l: LaneAssignment): Ranking.Rank {
    if l.timeMs.Some? then Ranking.Finite(l.timeMs.value as real) else Ranking.Last
  }

  /** `finalize`: the lanes ranked by ascending time, lanes without a time
      last, ties in lane order. The lanes themselves are left as they are. */
  function Finalize(lanes: seq<LaneAssignment>): (ranked: seq<LaneAssignment>)
    ensures |ranked| == |lanes| && multiset(ranked) == multiset(lanes)
    ensures forall i, j :: 0 <= i < j < |ranked| && ranked[i].timeMs.Some? && ranked[j].timeMs.Some?
              ==> ranked[i].timeMs.value <= ranked[j].timeMs.value
    ensures forall i, j :: 0 <= i < j < |ranked| && ranked[i].timeMs.None? ==> ranked[j].timeMs.None?
    ensures Ranking.Stable(ranked, lanes, LaneRank)
  {
    Ranking.SortByPermutes(lanes, LaneRank);
    Ranking.SortBySorted(lanes, LaneRank);
    Ranking.SortByStable(lanes, LaneRank);
    var ranked := Ranking.SortBy(lanes, LaneRank);
    assert forall i, j :: 0 <= i < j < |ranked| ==> Ranking.RankLe(LaneRank(ranked[i]), LaneRank(ranked[j]));
    ranked
  }

  /** Lanes without a time all rank last. */
  predicate AllUntimed(s: seq<LaneAssignment>) {
    forall i :: 0 <= i < |s| ==> s[i].timeMs.None?
  }

  /** A timed lane followed by untimed lanes is in ranking order. */
  lemma TimedInFrontIsSorted(x: LaneAssignment, rest: seq<LaneAssignment>)
    requires x.timeMs.Some? && AllUntimed(rest)
    ensures Ranking.Sorted([x] + rest, LaneRank)
  {
    var expected := [x] + rest;
    forall i, j | 0 <= i < j < |expected|
      ensures Ranking.RankLe(LaneRank(expected[i]), LaneRank(expected[j]))
    {
      assert expected[j] == rest[j - 1];
    }
  }

  /** Untimed lanes all carry the key `Last`: selecting `Last` keeps them
      all and selecting any other key keeps none. */
  lemma UntimedWithRank(s: seq<LaneAssignment>, key: Ranking.Rank)
    requires AllUntimed(s)
    ensures Ranking.WithRank(s, LaneRank, key) == if key == Ranking.Last then s else []
  {
    assert forall i :: 0 <= i < |s| ==> LaneRank(s[i]) == Ranking.Last;
    var other := if key == Ranking.Last then Ranking.Finite(0.0) else key;
    Ranking.WithRankUniform(s, LaneRank, Ranking.Last, other);
  }

  /** For one key: moving the timed lane in front of untimed lanes keeps the
      order of the lanes with that key. */
  lemma TimedInFrontForKey(pre: seq<LaneAssignment>, x: LaneAssignment, post: seq<LaneAssignment>, key: Ranking.Rank)
    requires x.timeMs.Some? && AllUntimed(pre) && AllUntimed(post)
    ensures Ranking.WithRank([x] + (pre + post), LaneRank, key) == Ranking.WithRank(pre + [x] + post, LaneRank, key)
  {
    var a, b, c := Ranking.WithRank(pre, LaneRank, key), Ranking.WithRank([x], LaneRank, key), Ranking.WithRank(post, LaneRank, key);
    assert Ranking.WithRank([x] + (pre + post), LaneRank, key) == b + (a + c) by {
      Ranking.WithRankAppend([x], pre + post, LaneRank, key);
      Ranking.WithRankAppend(pre, post, LaneRank, key);
    }
    assert Ranking.WithRank(pre + [x] + post, LaneRank, key) == (a + b) + c by {
      Ranking.WithRankAppend(pre + [x], post, LaneRank, key);
      Ranking.WithRankAppend(pre, [x], LaneRank, key);
    }
    if key == Ranking.Last {
      assert b == [] by {
        assert LaneRank(x) != Ranking.Last;
        assert [x][1..] == [];
        assert Ranking.WithRank([x][1..], LaneRank, key) == [];
      }
      assert b + (a + c) == (a + b) + c;
    } else {
      assert a == [] && c == [] by {
        UntimedWithRank(pre, key);
        UntimedWithRank(post, key);
      }
      assert b + (a + c) == (a + b) + c;
    }
  }

  /** Moving the one timed lane in front of untimed lanes keeps, for every
      key, the order of the lanes with that key. */
  lemma TimedInFrontIsStable(pre: seq<LaneAssignment>, x: LaneAssignment, post: seq<LaneAssignment>)
    requires x.timeMs.Some? && AllUntimed(pre) && AllUntimed(post)
    ensures Ranking.Stable([x] + (pre + post), pre + [x] + post, LaneRank)
  {
    forall key
      ensures Ranking.WithRank([x] + (pre + post), LaneRank, key) == Ranking.WithRank(pre + [x] + post, LaneRank, key)
    {
      TimedInFrontForKey(pre, x, post, key);
    }
  }

  /** When one lane alone has a time, ranking puts it first and leaves the
      others in lane order (a lane recorded before any start has time 0). */
  lemma OnlyTimedLaneRanksFirst(lanes: seq<LaneAssignment>, k: nat)
    requires k < |lanes| && lanes[k].timeMs.Some?
    requires forall i :: 0 <= i < |lanes| && i != k ==> lanes[i].timeMs.None?
    ensures Finalize(lanes) == [lanes[k]] + lanes[..k] + lanes[k + 1..]
  {
    var pre, post := lanes[..k], lanes[k + 1..];
    assert AllUntimed(pre) by {
      forall i | 0 <= i < |pre| ensures pre[i].timeMs.None? { assert pre[i] == lanes[i]; }
    }
    assert AllUntimed(post) by {
      forall i | 0 <= i < |post| ensures post[i].timeMs.None? { assert post[i] == lanes[k + 1 + i]; }
    }
    var rest := pre + post;
    assert AllUntimed(rest) by {
      forall i | 0 <= i < |rest| ensures rest[i].timeMs.None? {
        if i < |pre| { assert rest[i] == pre[i]; } else { assert rest[i] == post[i - |pre|]; }
      }
    }
    TimedInFrontIsSorted(lanes[k], rest);
    TimedInFrontIsStable(pre, lanes[k], post);
    assert lanes == pre + [lanes[k]] + post;
    assert [lanes[k]] + lanes[..k] + lanes[k + 1..] == [lanes[k]] + rest;
    Ranking.SortBySorted(lanes, LaneRank);
    Ranking.SortByStable(lanes, LaneRank);
    Ranking.StableSortIsUnique(Finalize(lanes), [lanes[k]] + rest, LaneRank);
  }

  /** The stopwatch and the lanes of one heat. */
  class TrackTimer {
    var running: bool
    var startTs: Option<int>
    var elapsed: int
    var lanesState: seq<LaneAssignment>
    /** The number of lanes, fixed when the timer is created. */
    ghost const lanes: nat

    /** The lane count never changes, lanes stay numbered 1..lanes, and a
        start instant is held exactly while the clock runs. */
    ghost predicate Valid()
      reads this
    {
      && |lanesState| == lanes
      && (forall i :: 0 <= i < |lanesState| ==> lanesState[i].lane == i + 1)
      && (running <==> startTs.Some?)
    }

    /** The reading of the clock at instant `now`: the time since the start
        while running, the retained reading when stopped. */
    function CurrentElapsed(now: int): int
      reads this
    {
      if running then now - (if startTs.Some? then startTs.value else now) else elapsed
    }

    /** The initial state: idle at zero, lane `i + 1` holding participant `i`
        or a placeholder, no time and status OK. */
    constructor (lanes: nat, initialAthletes: seq<Athlete>, freshId: nat -> string)
      ensures Valid() && this.lanes == lanes
      ensures !running && startTs == None && elapsed == 0
      ensures forall i :: 0 <= i < lanes ==>
        && lanesState[i].lane == i + 1
        && lanesState[i].athlete == Some(if i < |initialAthletes| then initialAthletes[i]
                                         else PlaceholderAthlete(freshId(i), i))
        && lanesState[i].timeMs == None
        && lanesState[i].status == OK
    {
      running := false;
      startTs := None;
      elapsed := 0;
      this.lanes := lanes;
      lanesState := seq(lanes, i requires 0 <= i < lanes =>
        LaneAssignment(i + 1,
          Some(if i < |initialAthletes| then initialAthletes[i] else PlaceholderAthlete(freshId(i), i)),
          None, OK));
    }

    /** `start`: ignored while running; otherwise the clock runs from `now`. */
    method Start(now: int)
      requires Valid()
      modifies this
      ensures Valid() && lanesState == old(lanesState)
      ensures old(running) ==> unchanged(this)
      ensures !old(running) ==> running && startTs == Some(now) && elapsed == 0
      ensures !old(running) ==> forall t :: CurrentElapsed(t) == t - now
    {
      if running {
        return;
      }
      startTs := Some(now);
      running := true;
      elapsed := 0;
    }

    /** `stop`: ignored while idle; otherwise the clock stops and keeps the
        reading it showed at `now`. */
    method Stop(now: int)
      requires Valid()
      modifies this
      ensures Valid() && lanesState == old(lanesState)
      ensures old(!running) ==> unchanged(this)
      ensures !running && startTs == None
      ensures old(running) ==> elapsed == now - old(startTs).value
      ensures forall t :: CurrentElapsed(t) == old(CurrentElapsed(now))
    {
      if !running {
        return;
      }
      var final := now - (if startTs.Some? then startTs.value else now);
      running := false;
      elapsed := final;
      startTs := None;
    }

    /** `recordForLane(index)`: lane `index` gets the clock's current reading
        (a whole number of milliseconds, so `Math.round` keeps it); the clock
        and every other lane stay as they were. */
    method RecordForLane(index: nat, now: int)
      requires Valid() && index < |lanesState|
      modifies this
      ensures Valid()
      ensures running == old(running) && startTs == old(startTs) && elapsed == old(elapsed)
      ensures |lanesState| == |old(lanesState)|
      ensures lanesState[index] == old(lanesState[index]).(timeMs := Some(old(CurrentElapsed(now))))
      ensures !old(running) ==> lanesState[index].timeMs == Some(old(elapsed))
      ensures forall i :: 0 <= i < |lanesState| && i != index ==> lanesState[i] == old(lanesState[i])
    {
      var current := CurrentElapsed(now);
      var copy := lanesState;
      copy := copy[index := copy[index].(timeMs := Some(current))];
      lanesState := copy;
    }

    /** `clearLane(index)`: lane `index`, if there is one, loses its time;
        nothing else changes. */
    method ClearLane(index: int)
      requires Valid()
      modifies this
      ensures Valid()
      ensures running == old(running) && startTs == old(startTs) && elapsed == old(elapsed)
      ensures |lanesState| == |old(lanesState)|
      ensures forall i :: 0 <= i < |lanesState| ==>
        lanesState[i] == if i == index then old(lanesState[i]).(timeMs := None) else old(lanesState[i])
    {
      var prev := lanesState;
      lanesState := seq(|prev|, i requires 0 <= i < |prev| =>
        if i == index then prev[i].(timeMs := None) else prev[i]);
    }

    /** `setAthleteName(index, name)`: lane `index`'s athlete is renamed,
        keeping its identity and other details; a lane without an athlete
        gets a new one with identity `freshId`. */
    method SetAthleteName(index: nat, name: string, freshId: string)
      requires Valid() && index < |lanesState|
      modifies this
      ensures Valid()
      ensures running == old(running) && startTs == old(startTs) && elapsed == old(elapsed)
      ensures |lanesState| == |old(lanesState)|
      ensures forall i :: 0 <= i < |lanesState| && i != index ==> lanesState[i] == old(lanesState[i])
      ensures var was := old(lanesState[index]);
        && lanesState[index] == was.(athlete := lanesState[index].athlete)
        && lanesState[index].athlete.Some?
        && lanesState[index].athlete.value.name == name
        && (was.athlete.Some? ==> lanesState[index].athlete == Some(was.athlete.value.(name := name)))
        && (was.athlete.None? ==> lanesState[index].athlete == Some(Athlete(freshId, name, None, None)))
    {
      var copy := lanesState;
      var athlete := if copy[index].athlete.Some? then copy[index].athlete.value
                     else Athlete(freshId, name, None, None);
      copy := copy[index := copy[index].(athlete := Some(athlete.(name := name)))];
      lanesState := copy;
    }
  }

  /** Four lanes, no start: recording lane 2 captures 0 ms and leaves the
      other lanes untimed. */
  method RecordLaneTwoBeforeStart(freshId: nat -> string, now: int)
    returns (lanes: seq<LaneAssignment>)
    ensures |lanes| == 4 && forall i :: 0 <= i < 4 ==> lanes[i].lane == i + 1
    ensures lanes[1].timeMs == Some(0)
    ensures lanes[0].timeMs.None? && lanes[2].timeMs.None? && lanes[3].timeMs.None?
  {
    var timer := new TrackTimer(4, [], freshId);
    assert forall i :: 0 <= i < 4 ==> timer.lanesState[i].timeMs.None?;
    timer.RecordForLane(1, now);
    lanes := timer.lanesState;
  }

  /** Lanes 1..4 where only lane 2 is timed rank as lanes 2, 1, 3, 4. */
  lemma LaneTwoRanksFirst(lanes: seq<LaneAssignment>)
    requires |lanes| == 4 && lanes[1].timeMs.Some?
    requires lanes[0].timeMs.None? && lanes[2].timeMs.None? && lanes[3].timeMs.None?
    ensures Finalize(lanes) == [lanes[1], lanes[0], lanes[2], lanes[3]]
  {
    assert forall i :: 0 <= i < |lanes| && i != 1 ==> lanes[i].timeMs.None?;
    OnlyTimedLaneRanksFirst(lanes, 1);
    assert lanes[..1] == [lanes[0]] && lanes[2..] == [lanes[2], lanes[3]];
  }

  /** Four lanes, no start: recording lane 2 captures 0 ms, and the ranking
      puts lane 2 first and the untimed lanes 1, 3 and 4 after it in order. */
  method ScenarioRecordBeforeStart(freshId: nat -> string, now: int)
    returns (ranked: seq<LaneAssignment>)
    ensures |ranked| == 4 && ranked[0].timeMs == Some(0)
    ensures ranked[0].lane == 2 && ranked[1].lane == 1 && ranked[2].lane == 3 && ranked[3].lane == 4
    ensures ranked[1].timeMs.None? && ranked[2].timeMs.None? && ranked[3].timeMs.None?
  {
    var lanes := RecordLaneTwoBeforeStart(freshId, now);
    LaneTwoRanksFirst(lanes);
    ranked := Finalize(lanes);
  }
}
