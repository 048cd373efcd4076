/** The event configuration form: the discipline vocabulary of each kind,
    the participant list, and the builder that turns the form's text fields
    into a configured event. */
module EventSetup {
  import opened Types
  import opened JsText

  const TrackSprints: seq<string> := ["60m", "100m", "200m", "400m"]
  const TrackMiddle: seq<string> := ["800m", "1500m", "3000m", "5000m", "10000m"]
  const Hurdles: seq<string> := ["100mH", "110mH", "400mH"]
  const Relays: seq<string> := ["4x100", "4x400"]
  const FieldHorizontal: seq<string> := ["Long Jump", "Triple Jump"]
  const FieldVertical: seq<string> := ["High Jump", "Pole Vault"]
  const Throws: seq<string> := ["Shot Put", "Discus", "Hammer", "Javelin"]
  const CombinedEvents: seq<string> := ["Heptathlon", "Decathlon"]
  const WalkMarathon: seq<string> := ["20km Walk", "Marathon"]

  /** `presetListForKind(k)`: the disciplines offered for a kind. */
  function PresetListForKind(k: EventKind): seq<string> {
    match k
    case Track => TrackSprints + TrackMiddle + Hurdles + Relays
    case Field => FieldHorizontal + FieldVertical + Throws
    case Combined => CombinedEvents
    case Walk => WalkMarathon
    case Marathon => WalkMarathon
  }

  predicate Distinct(s: seq<string>) {
    forall i, j :: 0 <= i < j < |s| ==> s[i] != s[j]
  }

  /** Every kind offers at least two disciplines, with no discipline listed
      twice, and the first one is the one selected with the kind. */
  lemma PresetsWellFormed(k: EventKind)
    ensures |PresetListForKind(k)| >= 2 && Distinct(PresetListForKind(k))
    ensures PresetListForKind(k)[0] == match k
                                     case Track => "60m"
                                     case Field => "Long Jump"
                                     case Combined => "Heptathlon"
                                     case Walk => "20km Walk"
                                     case Marathon => "20km Walk"
  {
    var s := PresetListForKind(k);
    match k
    case Track =>
      assert s == ["60m", "100m", "200m", "400m", "800m", "1500m", "3000m", "5000m", "10000m",
                   "100mH", "110mH", "400mH", "4x100", "4x400"];
    case Field =>
      assert s == ["Long Jump", "Triple Jump", "High Jump", "Pole Vault", "Shot Put", "Discus", "Hammer", "Javelin"];
    case Combined =>
    case Walk =>
    case Marathon =>
  }

  /** An athlete added by the form: no bib or country, named by its
      position. */
  function NumberedAthlete(id: string, k: nat): Athlete {
    Athlete(id, "Athlete " + NatToString(k), None, None)
  }

  /** `p.filter(x => x.id !== id)` */
  function WithoutId(ps: seq<Athlete>, id: string): seq<Athlete> {
    if ps == [] then []
    else (if ps[0].id == id then [] else [ps[0]]) + WithoutId(ps[1..], id)
  }

  /** The filter keeps exactly the athletes whose id differs. */
  lemma {:induction false} WithoutIdMembers(ps: seq<Athlete>, id: string)
    ensures forall x :: x in WithoutId(ps, id) <==> x in ps && x.id != id
  {
    if ps != [] {
      WithoutIdMembers(ps[1..], id);
      assert ps == [ps[0]] + ps[1..];
    }
  }

  /** The filter works piece by piece, so the survivors keep their order. */
  lemma {:induction false} WithoutIdAppend(a: seq<Athlete>, b: seq<Athlete>, id: string)
    ensures WithoutId(a + b, id) == WithoutId(a, id) + WithoutId(b, id)
  {
    if a == [] {
      assert a + b == b;
    } else {
      var ab := a + b;
      assert ab[0] == a[0];
      assert ab[1..] == a[1..] + b;
      WithoutIdAppend(a[1..], b, id);
    }
  }

  /** A list without the id is left as it is. */
  lemma {:induction false} WithoutAbsentId(ps: seq<Athlete>, id: string)
    requires forall i :: 0 <= i < |ps| ==> ps[i].id != id
    ensures WithoutId(ps, id) == ps
  {
    if ps != [] {
      WithoutAbsentId(ps[1..], id);
    }
  }

  /** Removing twice is removing once. */
  lemma WithoutIdIdempotent(ps: seq<Athlete>, id: string)
    ensures WithoutId(WithoutId(ps, id), id) == WithoutId(ps, id)
  {
    var r := WithoutId(ps, id);
    WithoutIdMembers(ps, id);
    assert forall i :: 0 <= i < |r| ==> r[i] in r;
    WithoutAbsentId(r, id);
  }

  /** Filtering around one position: the part before it, that element, and
      the part after it are filtered separately. */
  lemma WithoutIdAround(ps: seq<Athlete>, k: nat, id: string)
    requires k < |ps|
    ensures WithoutId(ps, id) == WithoutId(ps[..k], id) + WithoutId([ps[k]], id) + WithoutId(ps[k + 1..], id)
  {
    var pre, rest, post := ps[..k], ps[k..], ps[k + 1..];
    assert ps == pre + rest;
    assert rest == [ps[k]] + post;
    WithoutIdAppend(pre, rest, id);
    WithoutIdAppend([ps[k]], post, id);
  }

  /** Ids that no two athletes of the list share. */
  predicate UniqueIds(ps: seq<Athlete>) {
    forall i, j :: 0 <= i < j < |ps| ==> ps[i].id != ps[j].id
  }

  /** With unique ids, no athlete besides the one at `k` carries its id. */
  lemma OthersKeptAround(ps: seq<Athlete>, k: nat)
    requires k < |ps| && UniqueIds(ps)
    ensures WithoutId(ps[..k], ps[k].id) == ps[..k]
    ensures WithoutId(ps[k + 1..], ps[k].id) == ps[k + 1..]
  {
    var id := ps[k].id;
    var pre, post := ps[..k], ps[k + 1..];
    forall i | 0 <= i < |pre|
      ensures pre[i].id != id
    {
      assert pre[i] == ps[i];
    }
    forall i | 0 <= i < |post|
      ensures post[i].id != id
    {
      assert post[i] == ps[k + 1 + i];
    }
    WithoutAbsentId(pre, id);
    WithoutAbsentId(post, id);
  }

  /** When ids are unique, removing the id of the athlete at `k` removes that
      athlete and nothing else. */
  lemma RemoveUniqueId(ps: seq<Athlete>, k: nat)
    requires k < |ps| && UniqueIds(ps)
    ensures WithoutId(ps, ps[k].id) == ps[..k] + ps[k + 1..]
  {
    var id, pre, post := ps[k].id, ps[..k], ps[k + 1..];
    assert WithoutId(ps, id) == WithoutId(pre, id) + WithoutId([ps[k]], id) + WithoutId(post, id) by {
      WithoutIdAround(ps, k, id);
    }
    assert WithoutId(pre, id) == pre && WithoutId(post, id) == post by {
      OthersKeptAround(ps, k);
    }
    assert WithoutId([ps[k]], id) == [] by {
      assert [ps[k]][1..] == [];
    }
    assert pre + [] + post == pre + post;
  }

  /** Removing a freshly added athlete by its id restores the list. */
  lemma RemoveUndoesAdd(ps: seq<Athlete>, id: string)
    requires forall i :: 0 <= i < |ps| ==> ps[i].id != id
    ensures WithoutId(ps + [NumberedAthlete(id, |ps| + 1)], id) == ps
  {
    WithoutIdAppend(ps, [NumberedAthlete(id, |ps| + 1)], id);
    WithoutAbsentId(ps, id);
  }

  /** `Math.max(least, x)` where `x` is a parse result: NaN stays NaN. */
  function MaxOrNaN(least: int, x: Option<int>): NumField<int> {
    match x
    case None => NaN
    case Some(n) => Num(if n >= least then n else least)
  }

  /** A count field of a created event, `Math.max(least, parseInt(text ||
      fallback))`, where `fallback` is the decimal text of a default count.
      An empty text gives the default; otherwise NaN exactly when the text
      does not start with an integer, and else the typed count, or `least`
      when the count is below it; a number is never below `least`. */
  lemma CountFromText(text: string, fallback: int, least: int)
    ensures var f := MaxOrNaN(least, ParseInt(if text == "" then IntToString(fallback) else text));
      && (text == "" ==> f == Num(if fallback >= least then fallback else least))
      && (text != "" ==> (f.NaN? <==> ParseInt(text).None?))
      && (text != "" && ParseInt(text).Some? ==>
            f == Num(if ParseInt(text).value >= least then ParseInt(text).value else least))
      && (f.Num? ==> f.value >= least)
  {
    ParseIntReadsIntToString(fallback);
  }

  /** The `lanes` of a created event: track events only, 6 for an empty
      text, else the typed count raised to at least 2; NaN for text that
      does not start with an integer. */
  function LanesField(kind: EventKind, text: string): (f: NumField<int>)
    ensures f.Absent? <==> kind != Track
    ensures kind == Track && text == "" ==> f == Num(6)
    ensures kind == Track && text != "" ==> (f.NaN? <==> ParseInt(text).None?)
    ensures kind == Track && text != "" && ParseInt(text).Some? ==>
              f == Num(if ParseInt(text).value >= 2 then ParseInt(text).value else 2)
    ensures f.Num? ==> f.value >= 2
  {
    if kind == Track then
      assert IntToString(6) == "6";
      CountFromText(text, 6, 2);
      MaxOrNaN(2, ParseInt(if text == "" then "6" else text))
    else Absent
  }

  /** The `attemptsPerAthlete` of a created event: field events only, 3 for
      an empty text, else the typed count raised to at least 1; NaN for text
      that does not start with an integer. */
  function AttemptsField(kind: EventKind, text: string): (f: NumField<int>)
    ensures f.Absent? <==> kind != Field
    ensures kind == Field && text == "" ==> f == Num(3)
    ensures kind == Field && text != "" ==> (f.NaN? <==> ParseInt(text).None?)
    ensures kind == Field && text != "" && ParseInt(text).Some? ==>
              f == Num(if ParseInt(text).value >= 1 then ParseInt(text).value else 1)
    ensures f.Num? ==> f.value >= 1
  {
    if kind == Field then
      assert IntToString(3) == "3";
      CountFromText(text, 3, 1);
      MaxOrNaN(1, ParseInt(if text == "" then "3" else text))
    else Absent
  }

  /** The `windLegalLimit` of a created event: unset exactly when the text is
      empty, else the number the text starts with, or NaN. */
  function WindField(text: string): (f: NumField<real>)
    ensures f.Absent? <==> text == ""
    ensures text != "" ==> (f.NaN? <==> ParseFloat(text).None?)
    ensures ParseFloat(text).Some? ==> f == Num(ParseFloat(text).value)
  {
    if text == "" then Absent
    else match ParseFloat(text)
         case None => NaN
         case Some(v) => Num(v)
  }

  /** The qualifying places of a created event: unset exactly when the text
      is empty, else the typed count raised to at least 0, or NaN. */
  function ByPlaceField(text: string): (f: NumField<int>)
    ensures f.Absent? <==> text == ""
    ensures text != "" ==> (f.NaN? <==> ParseInt(text).None?)
    ensures text != "" && ParseInt(text).Some? ==>
              f == Num(if ParseInt(text).value >= 0 then ParseInt(text).value else 0)
    ensures f.Num? ==> f.value >= 0
  {
    if text == "" then Absent else MaxOrNaN(0, ParseInt(text))
  }

  /** The setup form: its text inputs, the selected kind and discipline, and
      the participants added so far. The text inputs are assigned directly
      as the user types. */
  class SetupForm {
    var name: string
    var kind: EventKind
    var discipline: string
    var lanesText: string
    var attemptsText: string
    var windLimitText: string
    var byPlaceText: string
    var participants: seq<Athlete>

    /** The selected discipline is always one the selected kind offers. */
    ghost predicate Valid()
      reads this
    {
      discipline in PresetListForKind(kind)
    }

    /** The form's initial state. */
    constructor ()
      ensures Valid()
      ensures name == "" && kind == Track && discipline == "100m"
      ensures lanesText == "6" && attemptsText == "6" && windLimitText == "2.0" && byPlaceText == "3"
      ensures participants == []
    {
      name := "";
      kind := Track;
      discipline := "100m";
      lanesText := "6";
      attemptsText := "6";
      windLimitText := "2.0";
      byPlaceText := "3";
      participants := [];
      assert PresetListForKind(Track)[1] == "100m";
    }

    /** Choosing a kind selects its first discipline (never the empty
        fallback, since every kind offers one). */
    method SelectKind(k: EventKind)
      requires Valid()
      modifies this
      ensures Valid() && kind == k && discipline == PresetListForKind(k)[0]
      ensures name == old(name) && participants == old(participants)
      ensures lanesText == old(lanesText) && attemptsText == old(attemptsText)
      ensures windLimitText == old(windLimitText) && byPlaceText == old(byPlaceText)
    {
      kind := k;
      var presets := PresetListForKind(k);
      PresetsWellFormed(k);
      discipline := if |presets| > 0 then presets[0] else "";
    }

    /** Choosing one of the offered disciplines. */
    method SelectDiscipline(d: string)
      requires Valid() && d in PresetListForKind(kind)
      modifies this
      ensures Valid() && discipline == d && kind == old(kind)
      ensures name == old(name) && participants == old(participants)
      ensures lanesText == old(lanesText) && attemptsText == old(attemptsText)
      ensures windLimitText == old(windLimitText) && byPlaceText == old(byPlaceText)
    {
      discipline := d;
    }

    /** `addParticipant`: one athlete with the fresh id, named by its
        position, appended; the list is otherwise unchanged. */
    method AddParticipant(id: string)
      requires Valid()
      modifies this
      ensures Valid()
      ensures participants == old(participants) + [NumberedAthlete(id, |old(participants)| + 1)]
      ensures name == old(name) && kind == old(kind) && discipline == old(discipline)
      ensures lanesText == old(lanesText) && attemptsText == old(attemptsText)
      ensures windLimitText == old(windLimitText) && byPlaceText == old(byPlaceText)
    {
      participants := participants + [NumberedAthlete(id, |participants| + 1)];
    }

    /** The "add 6 demo" button: six athletes with fresh ids, named by the
        next six positions, appended. */
    method AddDemoBatch(newId: nat -> string)
      requires Valid()
      modifies this
      ensures Valid()
      ensures |participants| == |old(participants)| + 6
      ensures participants[..|old(participants)|] == old(participants)
      ensures forall i :: 0 <= i < 6 ==>
        participants[|old(participants)| + i] == NumberedAthlete(newId(i), |old(participants)| + i + 1)
      ensures name == old(name) && kind == old(kind) && discipline == old(discipline)
      ensures lanesText == old(lanesText) && attemptsText == old(attemptsText)
      ensures windLimitText == old(windLimitText) && byPlaceText == old(byPlaceText)
    {
      var n := |participants|;
      var more := seq(6, i requires 0 <= i < 6 => NumberedAthlete(newId(i), n + i + 1));
      participants := participants + more;
    }

    /** `removeParticipant(id)`: every athlete with that id is dropped, the
        others keep their order. */
    method RemoveParticipant(id: string)
      requires Valid()
      modifies this
      ensures Valid()
      ensures participants == WithoutId(old(participants), id)
      ensures name == old(name) && kind == old(kind) && discipline == old(discipline)
      ensures lanesText == old(lanesText) && attemptsText == old(attemptsText)
      ensures windLimitText == old(windLimitText) && byPlaceText == old(byPlaceText)
    {
      participants := WithoutId(participants, id);
    }

    /** `createEvent`: no event when the name is blank; otherwise the event
        built from the form, with the identity `eventId`, the trimmed name,
        one phase, no qualifying time, and the numeric fields read from
        their texts. */
    method CreateEvent(eventId: string) returns (ev: Option<SportEvent>)
      requires Valid()
      ensures ev.None? <==> AllWhitespace(name)
      ensures ev.Some? ==>
        var e := ev.value;
        && e.id == eventId && e.kind == kind && e.discipline == discipline
        && e.discipline in PresetListForKind(e.kind)
        && e.name == Trim(name)
        && e.name != [] && !IsWhitespace(e.name[0]) && !IsWhitespace(e.name[|e.name| - 1])
        && e.phase == Some(Single) && e.participants == participants
        && e.distanceMeters.None? && e.notes.None?
        && e.lanes == LanesField(kind, lanesText)
        && e.attemptsPerAthlete == AttemptsField(kind, attemptsText)
        && e.windLegalLimit == WindField(windLimitText)
        && e.qualification == Some(QualificationRule(ByPlaceField(byPlaceText), None))
    {
      var trimmed := Trim(name);
      TrimEmptyIff(name);
      if trimmed == [] {
        return None;
      }
      ev := Some(SportEvent(eventId, trimmed, kind, discipline, Some(Single),
                            LanesField(kind, lanesText), AttemptsField(kind, attemptsText), None,
                            WindField(windLimitText), Some(QualificationRule(ByPlaceField(byPlaceText), None)),
                            participants, None));
    }
  }

  /** Two spaces are blank; "Men 100m" has no outer whitespace. */
  lemma SampleNames()
    ensures AllWhitespace("  ")
    ensures !AllWhitespace("Men 100m") && Trim("Men 100m") == "Men 100m"
  {
    assert !IsWhitespace("Men 100m"[0]);
    assert TrimStart("Men 100m") == "Men 100m";
    assert TrimEnd("Men 100m") == "Men 100m";
  }

  /** A form whose name is only spaces creates no event; "Men 100m" with an
      empty lanes text creates a track event with 6 lanes. */
  method ScenarioBlankNameAndDefaultLanes(eventId: string)
    returns (blank: Option<SportEvent>, named: Option<SportEvent>)
    ensures blank.None?
    ensures named.Some? && named.value.name == "Men 100m" && named.value.lanes == Num(6)
  {
    SampleNames();
    var form := new SetupForm();
    form.name := "  ";
    blank := form.CreateEvent(eventId);
    form.name := "Men 100m";
    form.lanesText := "";
    named := form.CreateEvent(eventId);
  }
}
