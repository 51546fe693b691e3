/**
 The read path of the current program (`MainPage.template_values_with_user`):
 fetch the group's weighings, make sure the viewer is a known person, group the
 weighings by day, and expand the sparse days into a gap-free calendar in which
 every known person has a value on every day. The newest day is shown first.
 */
module Aggregation {
  import opened Wrappers
  import opened Calendar
  import opened Records

  /** The zero-weight record for the viewer on `today`. */
  function SeedRecord(group: string, viewer: Person, today: int): Weighing {
    Weighing(group, viewer, today, 0)
  }

  /** The store after a read, and the weighings the read works on. */
  datatype Fetched = Fetched(store: seq<Weighing>, weighings: seq<Weighing>)

  /**
   `get_weighings`: the group's weighings; when the group has none and a viewer
   is signed in, one zero-weight record for the viewer on `today` is stored first.
   */
  function GetWeighings(store: seq<Weighing>, group: string, viewer: Option<Person>, today: int): (r: Fetched)
    ensures r.weighings == InGroup(r.store, group)
    ensures InGroup(store, group) != [] || viewer.None? ==> r.store == store
    ensures InGroup(store, group) == [] && viewer.Some? ==>
      r.store == store + [SeedRecord(group, viewer.value, today)]
    ensures viewer.Some? ==> |r.weighings| > 0
  {
    var fetched := InGroup(store, group);
    if |fetched| == 0 && viewer.Some? then
      var seed := SeedRecord(group, viewer.value, today);
      InGroupAppend(store, seed, group);
      Fetched(store + [seed], fetched + [seed])
    else
      Fetched(store, fetched)
  }

  /** The e-mails, the identity column and the weighings after `get_persons`. */
  datatype Persons = Persons(emails: set<string>, identities: seq<string>, weighings: seq<Weighing>)

  lemma {:induction false} IdentityColumnAppend(ws: seq<Weighing>, w: Weighing)
    ensures IdentityColumn(ws + [w]) == IdentityColumn(ws) + [w.person.identity]
  {
  }

  lemma {:induction false} EmailSetAppend(ws: seq<Weighing>, w: Weighing)
    ensures EmailSet(ws + [w]) == EmailSet(ws) + {w.person.email}
  {
    assert w in ws + [w];
    forall e | e in EmailSet(ws) ensures e in EmailSet(ws + [w]) {
      var v :| v in ws && v.person.email == e;
      assert v in ws + [w];
    }
  }

  /**
   `get_persons`: the e-mails and identities of all weighings. When the viewer has
   no weighing, the viewer is added and a zero-weight record for `today` is appended
   to the in-memory list only; nothing is stored.
   */
  function GetPersons(ws: seq<Weighing>, viewer: Person, group: string, today: int): (r: Persons)
    ensures viewer.identity in r.identities
    ensures r.identities == IdentityColumn(r.weighings)
    ensures r.emails == EmailSet(r.weighings)
    ensures |r.weighings| > 0
    ensures viewer.identity in IdentityColumn(ws) <==> r.weighings == ws
    ensures viewer.identity !in IdentityColumn(ws) ==> r.weighings == ws + [SeedRecord(group, viewer, today)]
  {
    var ids := IdentityColumn(ws);
    var emails := EmailSet(ws);
    if viewer.identity in ids then
      Persons(emails, ids, ws)
    else
      var seed := SeedRecord(group, viewer, today);
      IdentityColumnAppend(ws, seed);
      EmailSetAppend(ws, seed);
      Persons(emails + {viewer.email}, ids + [viewer.identity], ws + [seed])
  }

  /** The set of dates and the rows keyed by date after `get_dates`. */
  datatype Grouped = Grouped(dates: set<int>, days: map<int, Day>)

  /**
   What grouping by day means: the dates are exactly the record dates, each row
   carries its own date and exactly the identities weighed that day, and each
   cell holds the weight of the last record of that cell.
   */
  ghost predicate GroupsByDay(ws: seq<Weighing>, g: Grouped) {
    && g.dates == Datums(ws)
    && g.days.Keys == g.dates
    && (forall d :: d in g.days ==> g.days[d].datum == d)
    && (forall d :: d in g.days ==> g.days[d].entries.Keys == IdentitiesOn(ws, d))
    && (forall i :: IsLastFor(ws, i) ==>
          && ws[i].datum in g.days
          && ws[i].person.identity in g.days[ws[i].datum].entries
          && g.days[ws[i].datum].entries[ws[i].person.identity] == ws[i].weight)
  }

  /** One iteration of the loop in `get_dates`. */
  function GroupStep(prior: Grouped, w: Weighing): Grouped {
    var day := if w.datum in prior.days then prior.days[w.datum] else NewDay(w.datum);
    Grouped(prior.dates + {w.datum}, prior.days[w.datum := AddEntry(day, w.person.identity, w.weight)])
  }

  lemma {:induction false} GroupStepDates(ws: seq<Weighing>, w: Weighing, prior: Grouped)
    requires GroupsByDay(ws, prior)
    ensures GroupStep(prior, w).dates == Datums(ws + [w])
    ensures GroupStep(prior, w).days.Keys == GroupStep(prior, w).dates
    ensures forall d :: d in GroupStep(prior, w).days ==> GroupStep(prior, w).days[d].datum == d
  {
    DatumsAppend(ws, w);
  }

  lemma {:induction false} GroupStepIdentities(ws: seq<Weighing>, w: Weighing, prior: Grouped)
    requires GroupsByDay(ws, prior)
    ensures forall d :: d in GroupStep(prior, w).days ==>
      GroupStep(prior, w).days[d].entries.Keys == IdentitiesOn(ws + [w], d)
  {
    var next := GroupStep(prior, w);
    forall d | d in next.days
      ensures next.days[d].entries.Keys == IdentitiesOn(ws + [w], d)
    {
      IdentitiesOnAppend(ws, w, d);
    }
  }

  lemma {:induction false} GroupStepLastWins(ws: seq<Weighing>, w: Weighing, prior: Grouped, i: int)
    requires GroupsByDay(ws, prior)
    requires IsLastFor(ws + [w], i)
    ensures (ws + [w])[i].datum in GroupStep(prior, w).days
    ensures (ws + [w])[i].person.identity in GroupStep(prior, w).days[(ws + [w])[i].datum].entries
    ensures GroupStep(prior, w).days[(ws + [w])[i].datum].entries[(ws + [w])[i].person.identity] == (ws + [w])[i].weight
  {
    var all := ws + [w];
    if i < |ws| {
      assert all[i] == ws[i];
      assert !SameSlot(all[|ws|], all[i]);
      forall j | i < j < |ws| ensures !SameSlot(ws[j], ws[i]) {
        assert all[j] == ws[j];
      }
    }
  }

  lemma {:induction false} GroupStepAppend(ws: seq<Weighing>, w: Weighing, prior: Grouped)
    requires GroupsByDay(ws, prior)
    ensures GroupsByDay(ws + [w], GroupStep(prior, w))
  {
    GroupStepDates(ws, w, prior);
    GroupStepIdentities(ws, w, prior);
    forall i | IsLastFor(ws + [w], i)
      ensures && (ws + [w])[i].datum in GroupStep(prior, w).days
              && (ws + [w])[i].person.identity in GroupStep(prior, w).days[(ws + [w])[i].datum].entries
              && GroupStep(prior, w).days[(ws + [w])[i].datum].entries[(ws + [w])[i].person.identity] == (ws + [w])[i].weight
    {
      GroupStepLastWins(ws, w, prior, i);
    }
  }

  lemma {:induction false} GroupStepPreserves(ws: seq<Weighing>, prior: Grouped)
    requires |ws| > 0 && GroupsByDay(ws[..|ws| - 1], prior)
    ensures GroupsByDay(ws, GroupStep(prior, ws[|ws| - 1]))
  {
    var init, last := ws[..|ws| - 1], ws[|ws| - 1];
    assert init + [last] == ws;
    GroupStepAppend(init, last, prior);
  }

  /** `get_dates`: group the weighings by day; a later record of a cell overwrites an earlier one. */
  function GetDates(ws: seq<Weighing>): (r: Grouped)
    ensures GroupsByDay(ws, r)
    decreases |ws|
  {
    if ws == [] then
      Grouped({}, map[])
    else
      var prior := GetDates(ws[..|ws| - 1]);
      GroupStepPreserves(ws, prior);
      GroupStep(prior, ws[|ws| - 1])
  }

  /**
   The inner loop of `normalize_days` for one row: every identity not among the
   row's keys before the loop (`snapshot`) gets weight 0.
   */
  function FillFrom(day: Day, snapshot: set<string>, identities: seq<string>): (r: Day)
    requires snapshot <= day.entries.Keys
    requires forall id :: id in day.entries && id !in snapshot ==> day.entries[id] == 0
    ensures r.datum == day.datum
    ensures r.entries.Keys == day.entries.Keys + (set id | id in identities)
    ensures forall id :: id in snapshot ==> r.entries[id] == day.entries[id]
    ensures forall id :: id in r.entries && id !in snapshot ==> r.entries[id] == 0
    decreases |identities|
  {
    if identities == [] then
      day
    else
      var next := if identities[0] !in snapshot then AddEntry(day, identities[0], 0) else day;
      FillFrom(next, snapshot, identities[1..])
  }

  /** A row completed with a zero for every known identity it lacks. */
  function ZeroFill(day: Day, identities: seq<string>): (r: Day)
    ensures r.datum == day.datum
    ensures r.entries.Keys == day.entries.Keys + (set id | id in identities)
    ensures forall id :: id in day.entries ==> r.entries[id] == day.entries[id]
    ensures forall id :: id in r.entries && id !in day.entries ==> r.entries[id] == 0
  {
    FillFrom(day, day.entries.Keys, identities)
  }

  /** The row of day `d` before filling: the grouped row of a recorded date, otherwise an empty one. */
  function RowFor(days: map<int, Day>, dates: set<int>, d: int): Day
    requires dates <= days.Keys
  {
    if d in dates then days[d] else NewDay(d)
  }

  /**
   `row` is `day` completed for `identities`: same date, every identity present,
   every entry of `day` kept, and every other entry a known identity at 0.
   */
  ghost predicate FilledRow(row: Day, day: Day, identities: seq<string>) {
    && row.datum == day.datum
    && (forall id :: id in identities ==> id in row.entries)
    && (forall id :: id in day.entries ==> id in row.entries && row.entries[id] == day.entries[id])
    && (forall id :: id in row.entries ==> id in day.entries || (id in identities && row.entries[id] == 0))
  }

  /**
   `normalize_days`: one row for every day from the earliest to the latest
   recorded date, in ascending order; recorded dates keep their grouped row, the
   others get an empty one, and every row is completed with zeros for the known
   identities.
   */
  function NormalizeDays(days: map<int, Day>, identities: seq<string>, dates: set<int>): (r: seq<Day>)
    requires dates != {}
    requires dates <= days.Keys
    ensures |r| == SetMax(dates) - SetMin(dates) + 1
    ensures forall i :: 0 <= i < |r| ==> FilledRow(r[i], RowFor(days, dates, SetMin(dates) + i), identities)
  {
    var range := DateRange(SetMin(dates), SetMax(dates) + 1);
    seq(|range|, i requires 0 <= i < |range| => ZeroFill(RowFor(days, dates, range[i]), identities))
  }

  /**
   Row `i` of `normalize_days` is the day `i` days after the earliest date: it
   carries every known identity, keeps every recorded entry of that day, and
   holds nothing else; the added entries are 0.
   */
  lemma {:induction false} NormalizedRow(days: map<int, Day>, identities: seq<string>, dates: set<int>, i: int)
    requires dates != {} && dates <= days.Keys
    requires 0 <= i <= SetMax(dates) - SetMin(dates)
    ensures var row := NormalizeDays(days, identities, dates)[i];
      var d := SetMin(dates) + i;
      && row.datum == (if d in dates then days[d].datum else d)
      && (forall id :: id in identities ==> id in row.entries)
      && (d in dates ==> forall id :: id in days[d].entries ==> id in row.entries && row.entries[id] == days[d].entries[id])
      && (forall id :: id in row.entries ==>
            (id in identities && row.entries[id] == 0) || (d in dates && id in days[d].entries))
  {
  }

  /**
   `normalize_days` over all rows: exactly one row per day from the earliest to
   the latest date, in ascending order when every grouped row carries its own
   date, every known identity on every row, recorded entries kept, added
   entries 0, and no identity that is neither known nor recorded that day.
   */
  lemma {:induction false} NormalizeDaysRows(days: map<int, Day>, identities: seq<string>, dates: set<int>)
    requires dates != {} && dates <= days.Keys
    requires forall d :: d in days ==> days[d].datum == d
    ensures var r := NormalizeDays(days, identities, dates);
      && |r| == SetMax(dates) - SetMin(dates) + 1
      && (forall i :: 0 <= i < |r| ==> r[i].datum == SetMin(dates) + i)
      && (forall i, id :: 0 <= i < |r| && id in identities ==> id in r[i].entries)
      && (forall i, id :: 0 <= i < |r| && SetMin(dates) + i in dates && id in days[SetMin(dates) + i].entries ==>
            id in r[i].entries && r[i].entries[id] == days[SetMin(dates) + i].entries[id])
      && (forall i, id :: 0 <= i < |r| && id in r[i].entries ==>
            (id in identities && r[i].entries[id] == 0) || (SetMin(dates) + i in dates && id in days[SetMin(dates) + i].entries))
  {
    var r := NormalizeDays(days, identities, dates);
    forall i | 0 <= i < |r|
      ensures r[i].datum == SetMin(dates) + i
      ensures forall id :: id in identities ==> id in r[i].entries
      ensures SetMin(dates) + i in dates ==> forall id :: id in days[SetMin(dates) + i].entries ==>
        id in r[i].entries && r[i].entries[id] == days[SetMin(dates) + i].entries[id]
      ensures forall id :: id in r[i].entries ==>
        (id in identities && r[i].entries[id] == 0) || (SetMin(dates) + i in dates && id in days[SetMin(dates) + i].entries)
    {
      NormalizedRow(days, identities, dates, i);
    }
  }

  /** The values handed to the template: the store after the read, the e-mails, and the rows newest first. */
  datatype Page = Page(store: seq<Weighing>, persons: set<string>, days: seq<Day>)

  /** A weighing of the list is present in the identity column. */
  lemma {:induction false} InIdentityColumn(ws: seq<Weighing>, w: Weighing)
    requires w in ws
    ensures w.person.identity in IdentityColumn(ws)
  {
    var i :| 0 <= i < |ws| && ws[i] == w;
    assert IdentityColumn(ws)[i] == w.person.identity;
  }

  /** Grouped rows that can be normalized: some date, a row per date, each row carrying its own date. */
  ghost predicate WellKeyed(g: Grouped) {
    && g.dates != {}
    && g.dates <= g.days.Keys
    && forall d :: d in g.days ==> g.days[d].datum == d
  }

  lemma {:induction false} GroupedWellKeyed(ws: seq<Weighing>, g: Grouped)
    requires GroupsByDay(ws, g) && |ws| > 0
    ensures WellKeyed(g)
  {
    assert ws[0] in ws;
    assert ws[0].datum in g.dates;
  }

  /** Row `k` of the newest-first calendar is the day `k` days before the latest date. */
  lemma {:induction false} CalendarRow(g: Grouped, identities: seq<string>, k: int)
    requires WellKeyed(g)
    requires 0 <= k <= SetMax(g.dates) - SetMin(g.dates)
    ensures var rows := Reverse(NormalizeDays(g.days, identities, g.dates));
      && |rows| == SetMax(g.dates) - SetMin(g.dates) + 1
      && rows[k].datum == SetMax(g.dates) - k
      && forall id :: id in identities ==> id in rows[k].entries
  {
    var n := NormalizeDays(g.days, identities, g.dates);
    var j := |n| - 1 - k;
    NormalizedRow(g.days, identities, g.dates, j);
    assert Reverse(n)[k] == n[j];
  }

  /**
   The calendar of grouped weighings, newest first: one row per day from the
   latest to the earliest recorded date, no gaps, every known identity on every row.
   */
  lemma {:induction false} CalendarRows(g: Grouped, identities: seq<string>)
    requires WellKeyed(g)
    ensures var rows := Reverse(NormalizeDays(g.days, identities, g.dates));
      && |rows| > 0
      && rows[0].datum == SetMax(g.dates)
      && (forall i :: 0 <= i < |rows| ==> rows[i].datum == SetMax(g.dates) - i)
      && (forall i, id :: 0 <= i < |rows| && id in identities ==> id in rows[i].entries)
  {
    var rows := Reverse(NormalizeDays(g.days, identities, g.dates));
    CalendarRow(g, identities, 0);
    forall i | 0 <= i < |rows|
      ensures rows[i].datum == SetMax(g.dates) - i
      ensures forall id :: id in identities ==> id in rows[i].entries
    {
      CalendarRow(g, identities, i);
    }
  }

  /** A recorded entry of row `i` survives the zero filling. */
  lemma {:induction false} NormalizedCell(days: map<int, Day>, identities: seq<string>, dates: set<int>, i: int, id: string)
    requires dates != {} && dates <= days.Keys
    requires 0 <= i <= SetMax(dates) - SetMin(dates)
    requires SetMin(dates) + i in dates && id in days[SetMin(dates) + i].entries
    ensures var row := NormalizeDays(days, identities, dates)[i];
      var d := SetMin(dates) + i;
      && row.datum == days[d].datum
      && id in row.entries
      && row.entries[id] == days[d].entries[id]
  {
    var d := SetMin(dates) + i;
    assert NormalizeDays(days, identities, dates)[i] == ZeroFill(days[d], identities);
  }

  /** A recorded cell keeps its weight in the normalized, newest-first rows. */
  lemma {:induction false} ReversedCell(days: map<int, Day>, identities: seq<string>, dates: set<int>, d: int, id: string)
    requires dates <= days.Keys && d in dates && days[d].datum == d && id in days[d].entries
    ensures var rows := Reverse(NormalizeDays(days, identities, dates));
      var i := SetMax(dates) - d;
      && 0 <= i < |rows|
      && rows[i].datum == d
      && id in rows[i].entries
      && rows[i].entries[id] == days[d].entries[id]
  {
    var n := NormalizeDays(days, identities, dates);
    var j := d - SetMin(dates);
    assert Reverse(n)[|n| - 1 - j] == n[j];
    NormalizedCell(days, identities, dates, j, id);
  }

  /** The last weighing of a cell shows in the calendar row of its day. */
  lemma {:induction false} CalendarCell(ws: seq<Weighing>, g: Grouped, identities: seq<string>, k: int)
    requires GroupsByDay(ws, g) && IsLastFor(ws, k)
    ensures g.dates != {} && g.dates <= g.days.Keys
    ensures var rows := Reverse(NormalizeDays(g.days, identities, g.dates));
      var i := SetMax(g.dates) - ws[k].datum;
      && 0 <= i < |rows|
      && rows[i].datum == ws[k].datum
      && ws[k].person.identity in rows[i].entries
      && rows[i].entries[ws[k].person.identity] == ws[k].weight
  {
    ReversedCell(g.days, identities, g.dates, ws[k].datum, ws[k].person.identity);
  }

  /** `get_dates`, `normalize_days` and `reversed` applied to the result of `get_persons`. */
  function Rows(persons: Persons): (rows: seq<Day>)
    requires |persons.weighings| > 0
    ensures |rows| > 0
    ensures forall i :: 0 <= i < |rows| ==> rows[i].datum == rows[0].datum - i
    ensures forall i, id :: 0 <= i < |rows| && id in persons.identities ==> id in rows[i].entries
  {
    var grouped := GetDates(persons.weighings);
    GroupedWellKeyed(persons.weighings, grouped);
    CalendarRows(grouped, persons.identities);
    Reverse(NormalizeDays(grouped.days, persons.identities, grouped.dates))
  }

  /**
   `template_values_with_user`: the read path for a signed-in viewer. The read
   stores nothing except the seed record of an empty group, and it always shows
   at least one row.
   */
  function TemplateValues(store: seq<Weighing>, group: string, viewer: Person, today: int): (r: Page)
    ensures r.store != store <==> InGroup(store, group) == []
    ensures r.store != store ==> r.store == store + [SeedRecord(group, viewer, today)]
    ensures |r.days| > 0
  {
    var fetched := GetWeighings(store, group, Some(viewer), today);
    var persons := GetPersons(fetched.weighings, viewer, group, today);
    Page(fetched.store, persons.emails, Rows(persons))
  }

  /**
   The e-mails of a read are those of the group's records, plus the viewer's
   when the viewer has no record in the group.
   */
  lemma {:induction false} ReadPersons(store: seq<Weighing>, group: string, viewer: Person, today: int)
    ensures var ws := InGroup(store, group);
      TemplateValues(store, group, viewer, today).persons
        == EmailSet(ws) + (if viewer.identity in IdentityColumn(ws) then {} else {viewer.email})
  {
    ReadEmails(store, group, viewer, today);
  }

  /** The rows of a read run from the latest to the earliest day without gaps. */
  lemma {:induction false} ReadCalendar(store: seq<Weighing>, group: string, viewer: Person, today: int)
    ensures var days := TemplateValues(store, group, viewer, today).days;
      forall i :: 0 <= i < |days| ==> days[i].datum == days[0].datum - i
  {
  }

  /** Every row of a read has an entry for the viewer. */
  lemma {:induction false} ReadShowsViewer(store: seq<Weighing>, group: string, viewer: Person, today: int)
    ensures var days := TemplateValues(store, group, viewer, today).days;
      forall i :: 0 <= i < |days| ==> viewer.identity in days[i].entries
  {
    var fetched := GetWeighings(store, group, Some(viewer), today);
    var persons := GetPersons(fetched.weighings, viewer, group, today);
    assert viewer.identity in persons.identities;
  }

  /**
   A read keeps the store free of two records for one person and day in one
   group: the seed is stored only in a group that has no record at all.
   */
  lemma {:induction false} ReadKeepsCellsInGroupUnique(store: seq<Weighing>, group: string, viewer: Person, today: int)
    requires OnePerCellInGroup(store)
    ensures OnePerCellInGroup(TemplateValues(store, group, viewer, today).store)
  {
    var s := TemplateValues(store, group, viewer, today).store;
    if s != store {
      var ws := InGroup(store, group);
      assert ws == [];
      assert forall w | w in store :: w.group != group by {
        forall w | w in store ensures w.group != group {
          assert w !in ws;
        }
      }
      AppendToNewGroup(store, SeedRecord(group, viewer, today));
    }
  }

  /** Appending a record to a group the store has no record of keeps one record per cell in each group. */
  lemma {:induction false} AppendToNewGroup(store: seq<Weighing>, x: Weighing)
    requires OnePerCellInGroup(store)
    requires forall w | w in store :: w.group != x.group
    ensures OnePerCellInGroup(store + [x])
  {
    var s := store + [x];
    forall a, b | 0 <= a < b < |s| ensures s[a].group == s[b].group ==> !SameSlot(s[a], s[b]) {
      if b == |store| {
        assert s[a] == store[a] && store[a] in store;
        assert s[a].group != s[b].group;
      }
    }
  }

  /**
   Across groups a read does not keep one record per person and day: a viewer
   with a record for today in another group who reads an empty group gets a
   second record for today, the seed.
   */
  lemma {:induction false} ReadDuplicatesCell(store: seq<Weighing>, group: string, viewer: Person, today: int, i: nat)
    requires i < |store| && store[i].person == viewer && store[i].datum == today
    requires InGroup(store, group) == []
    ensures !OnePerCell(TemplateValues(store, group, viewer, today).store)
  {
    var s := TemplateValues(store, group, viewer, today).store;
    var seed := SeedRecord(group, viewer, today);
    assert s == store + [seed];
    assert s[i] == store[i] && s[|store|] == seed;
    assert SameSlot(s[i], s[|store|]);
  }

  /** The e-mails of a read: the group's, plus the viewer's when the viewer has no record in it. */
  lemma {:induction false} ReadEmails(store: seq<Weighing>, group: string, viewer: Person, today: int)
    ensures var ws := InGroup(store, group);
      var persons := GetPersons(GetWeighings(store, group, Some(viewer), today).weighings, viewer, group, today);
      persons.emails == EmailSet(ws) + (if viewer.identity in IdentityColumn(ws) then {} else {viewer.email})
  {
    var ws := InGroup(store, group);
    var fetched := GetWeighings(store, group, Some(viewer), today);
    if ws == [] {
      SeedEmails(group, viewer, today);
    } else {
      assert fetched.weighings == ws;
      GetPersonsEmails(ws, viewer, group, today);
    }
  }

  /** The persons of a list: its e-mails, plus the viewer's when the viewer has no record in it. */
  lemma {:induction false} GetPersonsEmails(ws: seq<Weighing>, viewer: Person, group: string, today: int)
    ensures GetPersons(ws, viewer, group, today).emails
      == EmailSet(ws) + (if viewer.identity in IdentityColumn(ws) then {} else {viewer.email})
  {
    if viewer.identity !in IdentityColumn(ws) {
      EmailSetAppend(ws, SeedRecord(group, viewer, today));
    }
  }

  /** The persons of the seed list alone: the viewer's e-mail. */
  lemma {:induction false} SeedEmails(group: string, viewer: Person, today: int)
    ensures var seed := SeedRecord(group, viewer, today);
      GetPersons([seed], viewer, group, today).emails == {viewer.email}
  {
    var seed := SeedRecord(group, viewer, today);
    assert IdentityColumn([seed])[0] == viewer.identity;
    assert seed in [seed];
    assert EmailSet([seed]) == {viewer.email};
  }

  /** Every record of the list shows its person on every row, and its day lies within the rows. */
  lemma {:induction false} RowsCoverRecord(ws: seq<Weighing>, viewer: Person, group: string, today: int, j: int)
    requires 0 <= j < |ws|
    ensures var rows := Rows(GetPersons(ws, viewer, group, today));
      && |rows| > 0
      && (forall i :: 0 <= i < |rows| ==> ws[j].person.identity in rows[i].entries)
      && rows[|rows| - 1].datum <= ws[j].datum <= rows[0].datum
  {
    var persons := GetPersons(ws, viewer, group, today);
    var pw := persons.weighings;
    assert pw[j] == ws[j];
    assert ws[j].person.identity in persons.identities by {
      assert IdentityColumn(pw)[j] == ws[j].person.identity;
    }
    var grouped := GetDates(pw);
    assert ws[j].datum in grouped.dates by {
      assert pw[j] in pw;
    }
    GroupedWellKeyed(pw, grouped);
    CalendarRows(grouped, persons.identities);
    assert Rows(persons) == Reverse(NormalizeDays(grouped.days, persons.identities, grouped.dates));
  }

  /**
   Every record of the group shows its person on every row of a read, and its
   day lies within the rows.
   */
  lemma {:induction false} ReadCoversGroup(store: seq<Weighing>, group: string, viewer: Person, today: int, j: int)
    requires 0 <= j < |InGroup(store, group)|
    ensures var r := TemplateValues(store, group, viewer, today);
      && |r.days| > 0
      && (forall i :: 0 <= i < |r.days| ==> InGroup(store, group)[j].person.identity in r.days[i].entries)
      && r.days[|r.days| - 1].datum <= InGroup(store, group)[j].datum <= r.days[0].datum
  {
    var fetched := GetWeighings(store, group, Some(viewer), today);
    assert fetched.weighings == InGroup(store, group);
    RowsCoverRecord(fetched.weighings, viewer, group, today, j);
  }

  /** The in-memory seed record never hides a record of the list. */
  lemma {:induction false} LastSurvivesSeed(ws: seq<Weighing>, viewer: Person, group: string, today: int, k: int)
    requires IsLastFor(ws, k)
    ensures GetPersons(ws, viewer, group, today).weighings[k] == ws[k]
    ensures IsLastFor(GetPersons(ws, viewer, group, today).weighings, k)
  {
    var pw := GetPersons(ws, viewer, group, today).weighings;
    forall j | k < j < |pw| ensures !SameSlot(pw[j], pw[k]) {
      if j >= |ws| {
        InIdentityColumn(ws, ws[k]);
      }
    }
  }

  /** In the rows built from any list, the last record of a cell is the value shown. */
  lemma {:induction false} RowsShowLastRecord(ws: seq<Weighing>, viewer: Person, group: string, today: int, k: int)
    requires IsLastFor(ws, k)
    ensures var rows := Rows(GetPersons(ws, viewer, group, today));
      && |rows| > 0
      && var i := rows[0].datum - ws[k].datum;
      && 0 <= i < |rows|
      && rows[i].datum == ws[k].datum
      && ws[k].person.identity in rows[i].entries
      && rows[i].entries[ws[k].person.identity] == ws[k].weight
  {
    var persons := GetPersons(ws, viewer, group, today);
    var pw := persons.weighings;
    LastSurvivesSeed(ws, viewer, group, today, k);
    var grouped := GetDates(pw);
    var rows := Reverse(NormalizeDays(grouped.days, persons.identities, grouped.dates));
    assert Rows(persons) == rows;
    var i := SetMax(grouped.dates) - ws[k].datum;
    assert |rows| > 0 && rows[0].datum == SetMax(grouped.dates) by {
      GroupedWellKeyed(pw, grouped);
      CalendarRow(grouped, persons.identities, 0);
    }
    assert && 0 <= i < |rows|
           && rows[i].datum == ws[k].datum
           && ws[k].person.identity in rows[i].entries
           && rows[i].entries[ws[k].person.identity] == ws[k].weight by {
      CalendarCell(pw, grouped, persons.identities, k);
    }
  }

  /** For a viewer without records, the appended seed is the last record of its cell. */
  lemma {:induction false} SeedIsLast(ws: seq<Weighing>, viewer: Person, group: string, today: int)
    requires viewer.identity !in IdentityColumn(ws)
    ensures var pw := GetPersons(ws, viewer, group, today).weighings;
      && pw[|pw| - 1] == SeedRecord(group, viewer, today)
      && IsLastFor(pw, |pw| - 1)
  {
  }

  /** A viewer without any record sees a zero for today. */
  lemma {:induction false} RowsShowZeroForNewViewer(ws: seq<Weighing>, viewer: Person, group: string, today: int)
    requires viewer.identity !in IdentityColumn(ws)
    ensures var rows := Rows(GetPersons(ws, viewer, group, today));
      && |rows| > 0
      && var i := rows[0].datum - today;
      && 0 <= i < |rows|
      && rows[i].datum == today
      && viewer.identity in rows[i].entries
      && rows[i].entries[viewer.identity] == 0
  {
    var persons := GetPersons(ws, viewer, group, today);
    var pw := persons.weighings;
    var k := |pw| - 1;
    SeedIsLast(ws, viewer, group, today);
    var grouped := GetDates(pw);
    var rows := Reverse(NormalizeDays(grouped.days, persons.identities, grouped.dates));
    assert Rows(persons) == rows;
    var i := SetMax(grouped.dates) - today;
    assert |rows| > 0 && rows[0].datum == SetMax(grouped.dates) by {
      GroupedWellKeyed(pw, grouped);
      CalendarRow(grouped, persons.identities, 0);
    }
    assert && 0 <= i < |rows|
           && rows[i].datum == today
           && viewer.identity in rows[i].entries
           && rows[i].entries[viewer.identity] == 0 by {
      CalendarCell(pw, grouped, persons.identities, k);
    }
  }

  /**
   The rows of a read are the rows built from the group's weighings, or from the
   seed record alone when the group was empty.
   */
  lemma {:induction false} ReadRowsOfGroup(store: seq<Weighing>, group: string, viewer: Person, today: int)
    ensures InGroup(store, group) != [] ==>
      TemplateValues(store, group, viewer, today).days == Rows(GetPersons(InGroup(store, group), viewer, group, today))
    ensures InGroup(store, group) == [] ==>
      TemplateValues(store, group, viewer, today).days == Rows(GetPersons([SeedRecord(group, viewer, today)], viewer, group, today))
  {
  }
}
