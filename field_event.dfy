/** The field event engine: a fixed grid of attempts per athlete, each
    holding a measured distance or a foul, the best mark recomputed after
    every change, and the ranking of the athletes by best mark. */
module FieldEvents {
  import opened Types
  import opened JsText
  import Ranking

  /** An attempt that counts towards the best mark: not a foul, with a value. */
  predicate IsMark(a: Attempt) {
    !a.foul && a.valueMeters.Some?
  }

  function Max(a: real, b: real): real {
    if a >= b then a else b
  }

  /** One step of the `reduce` that recomputes the best mark. */
  function BestStep(acc: real, a: Attempt): real {
    if IsMark(a) then Max(acc, a.valueMeters.value) else acc
  }

  /** `attempts.reduce(BestStep, acc)`, left to right. */
  function FoldBest(acc: real, attempts: seq<Attempt>): real
    decreases |attempts|
  {
    if attempts == [] then acc else FoldBest(BestStep(acc, attempts[0]), attempts[1..])
  }

  /** The cached best mark as the recorder computes it: the fold seeded with
      0, and a result of 0 stored as no best. */
  function BestOf(attempts: seq<Attempt>): Option<real> {
    var best := FoldBest(0.0, attempts);
    if best == 0.0 then None else Some(best)
  }

  /** The largest mark, or none when no attempt is a mark: the plain maximum
      against which `BestOf` is compared. */
  function MaxMark(attempts: seq<Attempt>): Option<real>
    decreases |attempts|
  {
    if attempts == [] then None
    else
      var rest := MaxMark(attempts[1..]);
      if !IsMark(attempts[0]) then rest
      else if rest.None? || rest.value < attempts[0].valueMeters.value then attempts[0].valueMeters
      else rest
  }

  /** MaxMark is the maximum of the marks: none exactly when there is no
      mark, else the value of some mark and at least every mark. */
  lemma {:induction false} MaxMarkIsMaximum(attempts: seq<Attempt>)
    ensures MaxMark(attempts).None? <==> forall j :: 0 <= j < |attempts| ==> !IsMark(attempts[j])
    ensures MaxMark(attempts).Some? ==>
      && (exists j :: 0 <= j < |attempts| && IsMark(attempts[j]) && attempts[j].valueMeters == MaxMark(attempts))
      && (forall j :: 0 <= j < |attempts| && IsMark(attempts[j]) ==> attempts[j].valueMeters.value <= MaxMark(attempts).value)
    decreases |attempts|
  {
    if attempts != [] {
      var tail := attempts[1..];
      MaxMarkIsMaximum(tail);
      assert forall j :: 1 <= j < |attempts| ==> attempts[j] == tail[j - 1];
      if MaxMark(tail).Some? && MaxMark(attempts) == MaxMark(tail) {
        var j :| 0 <= j < |tail| && IsMark(tail[j]) && tail[j].valueMeters == MaxMark(tail);
        assert attempts[j + 1] == tail[j];
      }
    }
  }

  /** The fold from `acc` ends at the larger of `acc` and the largest mark. */
  lemma {:induction false} FoldBestIsMax(acc: real, attempts: seq<Attempt>)
    ensures FoldBest(acc, attempts) == match MaxMark(attempts)
                                       case None => acc
                                       case Some(m) => Max(acc, m)
    decreases |attempts|
  {
    if attempts != [] {
      FoldBestIsMax(BestStep(acc, attempts[0]), attempts[1..]);
    }
  }

  /** The cached best is the largest mark when that is positive, and no best
      otherwise: marks of 0 or less never become a best. */
  lemma BestOfIsPositiveMaxMark(attempts: seq<Attempt>)
    ensures BestOf(attempts) == if MaxMark(attempts).Some? && MaxMark(attempts).value > 0.0
                                then MaxMark(attempts) else None
  {
    FoldBestIsMax(0.0, attempts);
  }

  /** What the cached best means for the marks themselves. */
  lemma BestOfBounds(attempts: seq<Attempt>)
    ensures BestOf(attempts).Some? ==>
      && BestOf(attempts).value > 0.0
      && (exists j :: 0 <= j < |attempts| && IsMark(attempts[j]) && attempts[j].valueMeters == BestOf(attempts))
      && (forall j :: 0 <= j < |attempts| && IsMark(attempts[j]) ==> attempts[j].valueMeters.value <= BestOf(attempts).value)
    ensures BestOf(attempts).None? <==>
      forall j :: 0 <= j < |attempts| && IsMark(attempts[j]) ==> attempts[j].valueMeters.value <= 0.0
  {
    BestOfIsPositiveMaxMark(attempts);
    MaxMarkIsMaximum(attempts);
  }

  /** An athlete with no valid attempt (all fouled or empty) has no best. */
  lemma NoMarkNoBest(attempts: seq<Attempt>)
    requires forall j :: 0 <= j < |attempts| ==> !IsMark(attempts[j])
    ensures BestOf(attempts) == None
  {
    BestOfIsPositiveMaxMark(attempts);
    MaxMarkIsMaximum(attempts);
  }

  /** An entry's sort key in `finalize`: descending best, so the negated
      best; no best sorts last (`best ?? -Infinity`). */
  function EntryRank(e: FieldEntry): Ranking.Rank {
    if e.best.Some? then Ranking.Finite(-e.best.value) else Ranking.Last
  }

  /** `finalize`: the entries ranked by descending best, entries without a
      best last, ties in participant order. The entries are left as they are. */
  function Finalize(entries: seq<FieldEntry>): (ranked: seq<FieldEntry>)
    ensures |ranked| == |entries| && multiset(ranked) == multiset(entries)
    ensures forall i, j :: 0 <= i < j < |ranked| && ranked[i].best.Some? && ranked[j].best.Some?
              ==> ranked[i].best.value >= ranked[j].best.value
    ensures forall i, j :: 0 <= i < j < |ranked| && ranked[i].best.None? ==> ranked[j].best.None?
    ensures Ranking.Stable(ranked, entries, EntryRank)
  {
    Ranking.SortByPermutes(entries, EntryRank);
    Ranking.SortBySorted(entries, EntryRank);
    Ranking.SortByStable(entries, EntryRank);
    var ranked := Ranking.SortBy(entries, EntryRank);
    assert forall i, j :: 0 <= i < j < |ranked| ==> Ranking.RankLe(EntryRank(ranked[i]), EntryRank(ranked[j]));
    ranked
  }

  /** A well-formed row: `n` attempts numbered 1..n, no fouled attempt
      carrying a value, and the cached best up to date. */
  ghost predicate WellFormed(e: FieldEntry, athlete: Athlete, n: nat) {
    && e.athlete == athlete
    && e.status == OK
    && |e.attempts| == n
    && (forall j :: 0 <= j < n ==> e.attempts[j].attemptNumber == j + 1)
    && (forall j :: 0 <= j < n ==> e.attempts[j].foul ==> e.attempts[j].valueMeters.None?)
    && e.best == BestOf(e.attempts)
  }

  /** The attempt being edited in the value dialog. */
  datatype Edit = Edit(athleteIndex: nat, attemptIndex: nat)

  /** The recorder's state: the rows, and the dialog that edits one attempt. */
  class FieldEventRecorder {
    var entries: seq<FieldEntry>
    var open: bool
    var currentEdit: Option<Edit>
    ghost const athletes: seq<Athlete>
    ghost const attemptsPerAthlete: nat

    /** One well-formed row per athlete, in the athletes' order, and an edit
        target, when there is one, inside the grid. */
    ghost predicate Valid()
      reads this
    {
      && |entries| == |athletes|
      && (forall i :: 0 <= i < |entries| ==> WellFormed(entries[i], athletes[i], attemptsPerAthlete))
      && (currentEdit.Some? ==>
            currentEdit.value.athleteIndex < |entries| && currentEdit.value.attemptIndex < attemptsPerAthlete)
    }

    /** `initialEntries`: one row per athlete with `attemptsPerAthlete` empty,
        unfouled attempts numbered from 1 (identities from `attemptId`), no
        best and status OK. */
    constructor (athletes: seq<Athlete>, attemptsPerAthlete: nat, attemptId: (nat, nat) -> string)
      ensures Valid() && this.athletes == athletes && this.attemptsPerAthlete == attemptsPerAthlete
      ensures !open && currentEdit.None?
      ensures forall i :: 0 <= i < |athletes| ==>
        && entries[i].athlete == athletes[i]
        && entries[i].best.None?
        && entries[i].status == OK
        && entries[i].attempts == seq(attemptsPerAthlete, j requires 0 <= j < attemptsPerAthlete =>
                                      Attempt(attemptId(i, j), j + 1, None, false))
    {
      this.athletes := athletes;
      this.attemptsPerAthlete := attemptsPerAthlete;
      open := false;
      currentEdit := None;
      var rows := seq(|athletes|, i requires 0 <= i < |athletes| =>
        FieldEntry(athletes[i],
          seq(attemptsPerAthlete, j requires 0 <= j < attemptsPerAthlete => Attempt(attemptId(i, j), j + 1, None, false)),
          None, OK));
      forall i | 0 <= i < |rows|
        ensures BestOf(rows[i].attempts) == None
      {
        NoMarkNoBest(rows[i].attempts);
      }
      entries := rows;
    }

    /** `openInput(athlete, attempt)`: the dialog opens on that attempt. */
    method OpenInput(athIndex: nat, attemptIndex: nat)
      requires Valid() && athIndex < |entries| && attemptIndex < attemptsPerAthlete
      modifies this
      ensures Valid() && entries == old(entries)
      ensures open && currentEdit == Some(Edit(athIndex, attemptIndex))
    {
      currentEdit := Some(Edit(athIndex, attemptIndex));
      open := true;
    }

    /** The dialog's cancel: it closes and forgets the edit target. */
    method Cancel()
      requires Valid()
      modifies this
      ensures Valid() && entries == old(entries)
      ensures !open && currentEdit.None?
    {
      open := false;
      currentEdit := None;
    }

    /** `onSubmitValue(raw)`: the dialog closes; without an edit target nothing
        else happens. Otherwise the edited attempt takes the parsed value (no
        value when the text is not a number) and is no longer a foul, and
        the athlete's best is recomputed; nothing else changes. */
    method OnSubmitValue(raw: string)
      requires Valid()
      modifies this
      ensures Valid() && !open && currentEdit.None?
      ensures old(currentEdit).None? ==> entries == old(entries)
      ensures old(currentEdit).Some? ==>
        var i, j := old(currentEdit).value.athleteIndex, old(currentEdit).value.attemptIndex;
        && |entries| == |old(entries)|
        && (forall k :: 0 <= k < |entries| && k != i ==> entries[k] == old(entries[k]))
        && entries[i].athlete == old(entries[i]).athlete
        && entries[i].status == old(entries[i]).status
        && entries[i].attempts == old(entries[i]).attempts[j := old(entries[i]).attempts[j].(valueMeters := ParseFloat(raw), foul := false)]
        && entries[i].best == BestOf(entries[i].attempts)
    {
      open := false;
      if currentEdit.None? {
        return;
      }
      var i, j := currentEdit.value.athleteIndex, currentEdit.value.attemptIndex;
      var v := ParseFloat(raw);
      var next := entries;
      var attempts := next[i].attempts;
      attempts := attempts[j := attempts[j].(valueMeters := v)];
      attempts := attempts[j := attempts[j].(foul := false)];
      next := next[i := next[i].(attempts := attempts, best := BestOf(attempts))];
      entries := next;
      currentEdit := None;
    }

    /** `toggleFoul(athlete, attempt)`: the attempt's foul flag flips, a new
        foul loses its value, and the athlete's best is recomputed; nothing
        else changes. */
    method ToggleFoul(athIndex: nat, attemptIndex: nat)
      requires Valid() && athIndex < |entries| && attemptIndex < attemptsPerAthlete
      modifies this
      ensures Valid() && open == old(open) && currentEdit == old(currentEdit)
      ensures |entries| == |old(entries)|
      ensures forall k :: 0 <= k < |entries| && k != athIndex ==> entries[k] == old(entries[k])
      ensures var was := old(entries[athIndex]);
        && entries[athIndex].athlete == was.athlete
        && entries[athIndex].status == was.status
        && |entries[athIndex].attempts| == |was.attempts|
        && (forall j :: 0 <= j < |was.attempts| && j != attemptIndex ==> entries[athIndex].attempts[j] == was.attempts[j])
        && entries[athIndex].attempts[attemptIndex].id == was.attempts[attemptIndex].id
        && entries[athIndex].attempts[attemptIndex].attemptNumber == was.attempts[attemptIndex].attemptNumber
        && entries[athIndex].attempts[attemptIndex].foul == !was.attempts[attemptIndex].foul
        && entries[athIndex].attempts[attemptIndex].valueMeters.None?
        && entries[athIndex].best == BestOf(entries[athIndex].attempts)
    {
      var next := entries;
      var attempts := next[athIndex].attempts;
      var at := attempts[attemptIndex];
      at := at.(foul := !at.foul);
      if at.foul {
        at := at.(valueMeters := None);
      }
      attempts := attempts[attemptIndex := at];
      next := next[athIndex := next[athIndex].(attempts := attempts, best := BestOf(attempts))];
      entries := next;
    }
  }

  /** A single positive mark among attempts that are otherwise fouled or
      empty is the best. */
  lemma OnlyMarkIsBest(attempts: seq<Attempt>, k: nat)
    requires k < |attempts| && IsMark(attempts[k]) && attempts[k].valueMeters.value > 0.0
    requires forall j :: 0 <= j < |attempts| && j != k ==> !IsMark(attempts[j])
    ensures BestOf(attempts) == attempts[k].valueMeters
  {
    BestOfBounds(attempts);
  }

  /** Entries already in ranking order are returned as they are: the ranking
      is the unique sorted, stable arrangement. */
  lemma FinalizeKeepsRankedOrder(entries: seq<FieldEntry>)
    requires Ranking.Sorted(entries, EntryRank)
    ensures Finalize(entries) == entries
  {
    Ranking.SortBySorted(entries, EntryRank);
    Ranking.StableSortIsUnique(Finalize(entries), entries, EntryRank);
  }

  /** The sample texts are a whole number, a point and fraction digits. */
  lemma SampleTextsSplit()
    ensures NatToString(7) + "." + "24" == "7.24"
    ensures NatToString(6) + "." + "90" == "6.90"
  {
  }

  /** The values of the sample fraction digits. */
  lemma SampleFractions()
    ensures FractionValue("24") == 0.24 && FractionValue("90") == 0.90
  {
    assert Pow10(2) == 100 by { assert Pow10(1) == 10; }
    assert DecimalValue("24") == 24 by { assert "24"[..1] == "2"; assert DecimalValue("2") == 2 by { assert "2"[..0] == ""; } }
    assert DecimalValue("90") == 90 by { assert "90"[..1] == "9"; assert DecimalValue("9") == 9 by { assert "9"[..0] == ""; } }
  }

  /** "7.24" reads as 7.24. */
  lemma ReadsSevenTwentyFour(text: string)
    requires text == "7.24"
    ensures ParseFloat(text) == Some(7.24)
  {
    assert text == NatToString(7) + "." + "24" by {
      SampleTextsSplit();
    }
    ParseFloatReadsDecimal(7, "24");
    SampleFractions();
  }

  /** "6.90" reads as 6.9. */
  lemma ReadsSixNinety(text: string)
    requires text == "6.90"
    ensures ParseFloat(text) == Some(6.90)
  {
    assert text == NatToString(6) + "." + "90" by {
      SampleTextsSplit();
    }
    ParseFloatReadsDecimal(6, "90");
    SampleFractions();
  }

  /** Text that starts with a letter is not a number. */
  lemma FoulishIsNotANumber()
    ensures ParseFloat("foulish") == None
  {
    assert TrimStart("foulish") == "foulish";
    assert DigitPrefix("foulish") == [];
  }

  /** No attempt of the row has been touched yet. */
  predicate Blank(row: seq<Attempt>) {
    forall k :: 0 <= k < |row| ==> row[k].valueMeters.None? && !row[k].foul
  }

  /** The first athlete of the sample session records 7.24, then an
      unreadable value, then a foul; the other row is left as it was. */
  method RecordFirstSample(rec: FieldEventRecorder)
    requires rec.Valid() && |rec.entries| == 2 && rec.attemptsPerAthlete == 3
    modifies rec
    ensures rec.Valid() && rec.attemptsPerAthlete == 3 && |rec.entries| == 2
    ensures rec.entries[1] == old(rec.entries[1])
    ensures var r0 := rec.entries[0].attempts;
      r0[0].valueMeters == Some(7.24) && !r0[0].foul && !IsMark(r0[1]) && !IsMark(r0[2])
  {
    ReadsSevenTwentyFour("7.24");
    FoulishIsNotANumber();
    rec.OpenInput(0, 0);
    rec.OnSubmitValue("7.24");
    rec.OpenInput(0, 1);
    rec.OnSubmitValue("foulish");
    rec.ToggleFoul(0, 2);
  }

  /** The second athlete of the sample session records 6.90; the first row is
      left as it was. */
  method RecordSecondSample(rec: FieldEventRecorder)
    requires rec.Valid() && |rec.entries| == 2 && rec.attemptsPerAthlete == 3
    requires Blank(rec.entries[1].attempts)
    modifies rec
    ensures rec.Valid() && |rec.entries| == 2
    ensures rec.entries[0] == old(rec.entries[0])
    ensures var r1 := rec.entries[1].attempts;
      r1[0].valueMeters == Some(6.90) && !r1[0].foul && !IsMark(r1[1]) && !IsMark(r1[2])
  {
    ReadsSixNinety("6.90");
    ghost var before := rec.entries[1].attempts;
    rec.OpenInput(1, 0);
    rec.OnSubmitValue("6.90");
    assert rec.entries[1].attempts[1] == before[1] && rec.entries[1].attempts[2] == before[2];
  }

  /** Two athletes with three attempts each. The first athlete records 7.24,
      then an unreadable value, then a foul; the second records 6.90. The
      bests are then 7.24 and 6.90. */
  method RecordSampleSession(a0: Athlete, a1: Athlete, attemptId: (nat, nat) -> string)
    returns (entries: seq<FieldEntry>)
    ensures |entries| == 2 && entries[0].athlete == a0 && entries[1].athlete == a1
    ensures entries[0].best == Some(7.24) && entries[1].best == Some(6.90)
  {
    var rec := new FieldEventRecorder([a0, a1], 3, attemptId);
    assert Blank(rec.entries[1].attempts);
    RecordFirstSample(rec);
    RecordSecondSample(rec);
    entries := rec.entries;
    var r0, r1 := entries[0].attempts, entries[1].attempts;
    assert |r0| == 3 && |r1| == 3;
    assert forall j :: 0 <= j < |r0| && j != 0 ==> !IsMark(r0[j]);
    assert forall j :: 0 <= j < |r1| && j != 0 ==> !IsMark(r1[j]);
    OnlyMarkIsBest(r0, 0);
    OnlyMarkIsBest(r1, 0);
  }

  /** The same session, then `finalize`: the athlete with 7.24 ranks ahead
      of the athlete with 6.90. */
  method ScenarioTwoAthletes(a0: Athlete, a1: Athlete, attemptId: (nat, nat) -> string)
    returns (ranked: seq<FieldEntry>)
    ensures |ranked| == 2 && ranked[0].athlete == a0 && ranked[1].athlete == a1
    ensures ranked[0].best == Some(7.24) && ranked[1].best == Some(6.90)
  {
    var entries := RecordSampleSession(a0, a1, attemptId);
    assert Ranking.Sorted(entries, EntryRank);
    FinalizeKeepsRankedOrder(entries);
    ranked := Finalize(entries);
  }

  /** One athlete fouls all three attempts: no best is recorded, and the
      athlete's row ends with every attempt a foul. */
  method ScenarioAllFouled(athlete: Athlete, attemptId: (nat, nat) -> string)
    returns (entry: FieldEntry)
    ensures entry.athlete == athlete && entry.best == None
    ensures |entry.attempts| == 3 && forall j :: 0 <= j < 3 ==> entry.attempts[j].foul
  {
    var rec := new FieldEventRecorder([athlete], 3, attemptId);
    rec.ToggleFoul(0, 0);
    rec.ToggleFoul(0, 1);
    rec.ToggleFoul(0, 2);
    entry := rec.entries[0];
    NoMarkNoBest(entry.attempts);
  }
}
