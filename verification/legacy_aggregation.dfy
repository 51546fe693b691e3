/**
 The calendar view of the legacy program: a day is an object with a date and
 four fixed person attributes defaulting to 0, a weighing is stored on it with
 `setattr` under the author's identity, and the inline loop of `MainPage.get`
 fills the gaps between the first and the last date with blank days.
 */
module LegacyAggregation {
  import opened Wrappers
  import opened Calendar
  import opened Records

  /**
   The legacy `Day`: the date, the four fixed persons, and every attribute set
   under any other name.
   */
  datatype LegacyDay = LegacyDay(date: int, dirk: int, gergan: int, michael: int, tristan: int, others: map<string, int>)

  /** `Day(date = d)`: every fixed person at 0, nothing else set. */
  function BlankDay(date: int): LegacyDay {
    LegacyDay(date, 0, 0, 0, 0, map[])
  }

  /** The four persons the legacy `Day` knows by name. */
  predicate IsFixedPerson(name: string) {
    name == "dirk" || name == "gergan" || name == "michael" || name == "tristan"
  }

  /** `getattr(day, name)`, `None` when the day has no such attribute. */
  function Attribute(day: LegacyDay, name: string): Option<int> {
    if name == "date" then Some(day.date)
    else if name == "dirk" then Some(day.dirk)
    else if name == "gergan" then Some(day.gergan)
    else if name == "michael" then Some(day.michael)
    else if name == "tristan" then Some(day.tristan)
    else if name in day.others then Some(day.others[name])
    else None
  }

  /** `setattr(day, name, value)`: the named attribute reads `value`, every other one is unchanged. */
  function SetAttr(day: LegacyDay, name: string, value: int): (r: LegacyDay)
    ensures Attribute(r, name) == Some(value)
    ensures forall n :: n != name ==> Attribute(r, n) == Attribute(day, n)
  {
    if name == "date" then day.(date := value)
    else if name == "dirk" then day.(dirk := value)
    else if name == "gergan" then day.(gergan := value)
    else if name == "michael" then day.(michael := value)
    else if name == "tristan" then day.(tristan := value)
    else day.(others := day.others[name := value])
  }

  /** A blank day reads 0 for every fixed person and its own date. */
  lemma {:induction false} BlankDayAttributes(d: int, name: string)
    ensures IsFixedPerson(name) ==> Attribute(BlankDay(d), name) == Some(0)
    ensures name == "date" ==> Attribute(BlankDay(d), name) == Some(d)
    ensures !IsFixedPerson(name) && name != "date" ==> Attribute(BlankDay(d), name) == None
  {
  }

  /**
   Every attribute of `day` outside `ids` still holds its blank value for date
   `d`, and no attribute beyond the fixed ones was added outside `ids`.
   */
  predicate Untouched(ids: set<string>, d: int, day: LegacyDay) {
    && ("date" !in ids ==> day.date == d)
    && ("dirk" !in ids ==> day.dirk == 0)
    && ("gergan" !in ids ==> day.gergan == 0)
    && ("michael" !in ids ==> day.michael == 0)
    && ("tristan" !in ids ==> day.tristan == 0)
    && day.others.Keys <= ids
  }

  /** Storing under `name` touches only `name`. */
  lemma SetAttrUntouched(ids: set<string>, d: int, day: LegacyDay, name: string, value: int)
    requires Untouched(ids, d, day)
    ensures Untouched(ids + {name}, d, SetAttr(day, name, value))
  {
  }

  /** `dates` and `days_dict` after the grouping loop. */
  datatype LegacyGrouped = LegacyGrouped(dates: set<int>, days: map<int, LegacyDay>)

  /**
   What the grouping loop computes: the dates are exactly the record dates, each
   has a day, an attribute nobody weighed under on a date reads as on a blank
   day, and each weighed cell holds the weight of its last record.
   */
  ghost predicate LegacyGroupsByDay(ws: seq<Weighing>, g: LegacyGrouped) {
    && g.dates == Datums(ws)
    && g.days.Keys == g.dates
    && (forall d :: d in g.days ==> Untouched(IdentitiesOn(ws, d), d, g.days[d]))
    && (forall i :: IsLastFor(ws, i) ==>
          && ws[i].datum in g.days
          && Attribute(g.days[ws[i].datum], ws[i].person.identity) == Some(ws[i].weight))
  }

  /** One iteration of the grouping loop. */
  function LegacyStep(prior: LegacyGrouped, w: Weighing): LegacyGrouped {
    var day := if w.datum in prior.days then prior.days[w.datum] else BlankDay(w.datum);
    LegacyGrouped(prior.dates + {w.datum}, prior.days[w.datum := SetAttr(day, w.person.identity, w.weight)])
  }

  lemma {:induction false} LegacyStepUntouched(ws: seq<Weighing>, w: Weighing, prior: LegacyGrouped, d: int)
    requires LegacyGroupsByDay(ws, prior)
    requires d in LegacyStep(prior, w).days
    ensures Untouched(IdentitiesOn(ws + [w], d), d, LegacyStep(prior, w).days[d])
  {
    IdentitiesOnAppend(ws, w, d);
    if d == w.datum {
      var day := if w.datum in prior.days then prior.days[w.datum] else BlankDay(w.datum);
      assert Untouched(IdentitiesOn(ws, d), d, day);
      SetAttrUntouched(IdentitiesOn(ws, d), d, day, w.person.identity, w.weight);
      assert LegacyStep(prior, w).days[d] == SetAttr(day, w.person.identity, w.weight);
    } else {
      assert LegacyStep(prior, w).days[d] == prior.days[d];
    }
  }

  lemma {:induction false} LegacyStepLastWins(ws: seq<Weighing>, w: Weighing, prior: LegacyGrouped, i: int)
    requires LegacyGroupsByDay(ws, prior)
    requires IsLastFor(ws + [w], i)
    ensures (ws + [w])[i].datum in LegacyStep(prior, w).days
    ensures Attribute(LegacyStep(prior, w).days[(ws + [w])[i].datum], (ws + [w])[i].person.identity) == Some((ws + [w])[i].weight)
  {
    var all := ws + [w];
    if i < |ws| {
      assert all[i] == ws[i];
      assert !SameSlot(all[|ws|], all[i]);
      forall j | i < j < |ws| ensures !SameSlot(ws[j], ws[i]) {
        assert all[j] == ws[j];
      }
      assert IsLastFor(ws, i);
    }
  }

  lemma {:induction false} LegacyStepAppend(ws: seq<Weighing>, w: Weighing, prior: LegacyGrouped)
    requires LegacyGroupsByDay(ws, prior)
    ensures LegacyGroupsByDay(ws + [w], LegacyStep(prior, w))
  {
    var next := LegacyStep(prior, w);
    DatumsAppend(ws, w);
    forall d | d in next.days ensures Untouched(IdentitiesOn(ws + [w], d), d, next.days[d]) {
      LegacyStepUntouched(ws, w, prior, d);
    }
    forall i | IsLastFor(ws + [w], i)
      ensures && (ws + [w])[i].datum in next.days
              && Attribute(next.days[(ws + [w])[i].datum], (ws + [w])[i].person.identity) == Some((ws + [w])[i].weight)
    {
      LegacyStepLastWins(ws, w, prior, i);
    }
  }

  lemma {:induction false} LegacyStepPreserves(ws: seq<Weighing>, prior: LegacyGrouped)
    requires |ws| > 0 && LegacyGroupsByDay(ws[..|ws| - 1], prior)
    ensures LegacyGroupsByDay(ws, LegacyStep(prior, ws[|ws| - 1]))
  {
    var init, last := ws[..|ws| - 1], ws[|ws| - 1];
    assert init + [last] == ws;
    LegacyStepAppend(init, last, prior);
  }

  /** The grouping loop of the legacy `MainPage.get`, over the weighings in fetch order. */
  function LegacyGroup(ws: seq<Weighing>): (r: LegacyGrouped)
    ensures r.dates == Datums(ws) && r.days.Keys == r.dates
    decreases |ws|
  {
    if ws == [] then
      LegacyGrouped({}, map[])
    else
      var prior := LegacyGroup(ws[..|ws| - 1]);
      DatumsAppend(ws[..|ws| - 1], ws[|ws| - 1]);
      assert ws[..|ws| - 1] + [ws[|ws| - 1]] == ws;
      LegacyStep(prior, ws[|ws| - 1])
  }

  /**
   The grouping loop groups by day: a later record of a cell overwrites an
   earlier one, and an attribute nobody weighed under keeps its blank value.
   */
  lemma {:induction false} LegacyGroupByDay(ws: seq<Weighing>)
    ensures LegacyGroupsByDay(ws, LegacyGroup(ws))
    decreases |ws|
  {
    if ws != [] {
      LegacyGroupByDay(ws[..|ws| - 1]);
      LegacyStepPreserves(ws, LegacyGroup(ws[..|ws| - 1]));
    }
  }

  /**
   The gap-filling loop: one day for every date from the first to the last
   recorded date, the grouped day where there is one and a blank day elsewhere.
   */
  function LegacyGapFill(dates: set<int>, days: map<int, LegacyDay>): (r: seq<LegacyDay>)
    requires dates != {} && dates <= days.Keys
    ensures |r| == SetMax(dates) - SetMin(dates) + 1
  {
    var range := DateRange(SetMin(dates), SetMax(dates) + 1);
    seq(|range|, i requires 0 <= i < |range| => if range[i] in dates then days[range[i]] else BlankDay(range[i]))
  }

  /** Day `i` of the filled list is the grouped day of its date, or a blank day when that date has none. */
  lemma {:induction false} GapFillAt(dates: set<int>, days: map<int, LegacyDay>, i: int)
    requires dates != {} && dates <= days.Keys
    requires 0 <= i <= SetMax(dates) - SetMin(dates)
    ensures var d := SetMin(dates) + i;
      LegacyGapFill(dates, days)[i] == if d in dates then days[d] else BlankDay(d)
  {
    var range := DateRange(SetMin(dates), SetMax(dates) + 1);
    assert range[i] == SetMin(dates) + i;
  }

  /** Row `k` of the newest-first list is the day `k` days before the last date. */
  lemma {:induction false} ReversedGapFill(dates: set<int>, days: map<int, LegacyDay>, k: int)
    requires dates != {} && dates <= days.Keys
    requires 0 <= k <= SetMax(dates) - SetMin(dates)
    ensures var rows := Reverse(LegacyGapFill(dates, days));
      && |rows| == SetMax(dates) - SetMin(dates) + 1
      && rows[k] == if SetMax(dates) - k in dates then days[SetMax(dates) - k] else BlankDay(SetMax(dates) - k)
  {
    var filled := LegacyGapFill(dates, days);
    var j := |filled| - 1 - k;
    assert SetMin(dates) + j == SetMax(dates) - k;
    GapFillAt(dates, days, j);
    assert Reverse(filled)[k] == filled[j];
  }

  /**
   The list the template receives: one day per date from the newest recorded
   date down to the oldest.
   */
  function LegacyRows(ws: seq<Weighing>): (rows: seq<LegacyDay>)
    requires Datums(ws) != {}
    ensures |rows| == SetMax(Datums(ws)) - SetMin(Datums(ws)) + 1
  {
    var g := LegacyGroup(ws);
    Reverse(LegacyGapFill(g.dates, g.days))
  }

  /**
   Row `k` of the legacy calendar is the day `k` days before the newest
   recorded date: its grouped day when that date has records, a blank day
   (every fixed person at 0) otherwise.
   */
  lemma {:induction false} LegacyCalendarRow(ws: seq<Weighing>, k: int)
    requires Datums(ws) != {} && 0 <= k < |LegacyRows(ws)|
    ensures var d := SetMax(Datums(ws)) - k;
      && (d !in Datums(ws) ==> LegacyRows(ws)[k] == BlankDay(d))
      && (d in Datums(ws) ==> LegacyRows(ws)[k] == LegacyGroup(ws).days[d])
  {
    var g := LegacyGroup(ws);
    assert g.dates == Datums(ws);
    ReversedGapFill(g.dates, g.days, k);
  }

  /** A cell of one grouped day: the last record's weight, or 0 for an unweighed fixed person. */
  lemma {:induction false} GroupedCell(ws: seq<Weighing>, g: LegacyGrouped, d: int, name: string)
    requires LegacyGroupsByDay(ws, g) && d in g.days
    ensures IsFixedPerson(name) && name !in IdentitiesOn(ws, d) ==> Attribute(g.days[d], name) == Some(0)
    ensures forall i :: IsLastFor(ws, i) && ws[i].datum == d && ws[i].person.identity == name ==>
      Attribute(g.days[d], name) == Some(ws[i].weight)
  {
    assert Untouched(IdentitiesOn(ws, d), d, g.days[d]);
  }

  /** A date without records has no last record, and its blank day reads 0 for every fixed person. */
  lemma {:induction false} BlankCell(ws: seq<Weighing>, d: int, name: string)
    requires d !in Datums(ws)
    ensures name !in IdentitiesOn(ws, d)
    ensures IsFixedPerson(name) ==> Attribute(BlankDay(d), name) == Some(0)
    ensures forall i :: IsLastFor(ws, i) ==> ws[i].datum != d
  {
    BlankDayAttributes(d, name);
    forall i | IsLastFor(ws, i) ensures ws[i].datum != d {
      assert ws[i] in ws;
    }
  }

  /** A cell of the grouped day of a recorded date, read off the grouping loop's result. */
  lemma {:induction false} GroupedDayCell(ws: seq<Weighing>, d: int, name: string)
    requires d in Datums(ws)
    ensures d in LegacyGroup(ws).days
    ensures IsFixedPerson(name) && name !in IdentitiesOn(ws, d) ==> Attribute(LegacyGroup(ws).days[d], name) == Some(0)
    ensures forall i :: IsLastFor(ws, i) && ws[i].datum == d && ws[i].person.identity == name ==>
      Attribute(LegacyGroup(ws).days[d], name) == Some(ws[i].weight)
  {
    LegacyGroupByDay(ws);
    GroupedCell(ws, LegacyGroup(ws), d, name);
  }

  /**
   Every cell of the legacy calendar: on row `k`, an identity reads the weight
   of its last record for that date, and a fixed person without a record that
   day reads 0.
   */
  lemma {:induction false} LegacyCalendarCell(ws: seq<Weighing>, k: int, name: string)
    requires Datums(ws) != {} && 0 <= k < |LegacyRows(ws)|
    ensures var d := SetMax(Datums(ws)) - k;
      && (IsFixedPerson(name) && name !in IdentitiesOn(ws, d) ==> Attribute(LegacyRows(ws)[k], name) == Some(0))
      && (forall i :: IsLastFor(ws, i) && ws[i].datum == d && ws[i].person.identity == name ==>
            Attribute(LegacyRows(ws)[k], name) == Some(ws[i].weight))
  {
    var d := SetMax(Datums(ws)) - k;
    LegacyCalendarRow(ws, k);
    if d in Datums(ws) {
      GroupedDayCell(ws, d, name);
    } else {
      BlankCell(ws, d, name);
    }
  }
}
