/**
 The stored and derived entities: a person, one weighing, and a day of the
 calendar view. Calendar dates are integer day numbers.
 */
module Records {

  /** The signed-in user as the identity provider reports it. */
  datatype Person = Person(identity: string, email: string)

  /**
   One stored measurement. `group` is the group name behind the entity-group
   parent key; `weight` is in tenths of a kilogram. The creation timestamp is
   not modelled.
   */
  datatype Weighing = Weighing(group: string, person: Person, datum: int, weight: int)

  /** A calendar row: a date and a map from person identity to weight. */
  datatype Day = Day(datum: int, entries: map<string, int>)

  /** `Day(datum = d)`: a row without entries. */
  function NewDay(datum: int): Day {
    Day(datum, map[])
  }

  /** `Day.add_entry`: set the weight of one identity, keeping every other entry. */
  function AddEntry(day: Day, identity: string, weight: int): (r: Day)
    ensures r.datum == day.datum
    ensures r.entries.Keys == day.entries.Keys + {identity}
    ensures r.entries[identity] == weight
    ensures forall id :: id in day.entries && id != identity ==> r.entries[id] == day.entries[id]
  {
    day.(entries := day.entries[identity := weight])
  }

  /** Two weighings fill the same cell of the calendar: same day, same person. */
  predicate SameSlot(a: Weighing, b: Weighing) {
    a.datum == b.datum && a.person.identity == b.person.identity
  }

  /** At most one record per (group, identity, day). */
  ghost predicate OnePerCellInGroup(store: seq<Weighing>) {
    forall i, j :: 0 <= i < j < |store| && store[i].group == store[j].group ==> !SameSlot(store[i], store[j])
  }

  /** At most one record per (identity, day) across all groups. */
  ghost predicate OnePerCell(store: seq<Weighing>) {
    forall i, j :: 0 <= i < j < |store| ==> !SameSlot(store[i], store[j])
  }

  /** `ws[i]` is the last weighing of its cell in `ws`. */
  predicate IsLastFor(ws: seq<Weighing>, i: int) {
    && 0 <= i < |ws|
    && forall j :: i < j < |ws| ==> !SameSlot(ws[j], ws[i])
  }

  /** The days on which `ws` holds a weighing. */
  function Datums(ws: seq<Weighing>): set<int> {
    set w | w in ws :: w.datum
  }

  /** The identities that have a weighing on day `d` in `ws`. */
  function IdentitiesOn(ws: seq<Weighing>, d: int): set<string> {
    set w | w in ws && w.datum == d :: w.person.identity
  }

  lemma {:induction false} DatumsAppend(ws: seq<Weighing>, w: Weighing)
    ensures Datums(ws + [w]) == Datums(ws) + {w.datum}
  {
    assert w in ws + [w];
    forall d | d in Datums(ws) ensures d in Datums(ws + [w]) {
      var v :| v in ws && v.datum == d;
      assert v in ws + [w];
    }
  }

  lemma {:induction false} IdentitiesOnAppend(ws: seq<Weighing>, w: Weighing, d: int)
    ensures IdentitiesOn(ws + [w], d) ==
      IdentitiesOn(ws, d) + (if w.datum == d then {w.person.identity} else {})
  {
    assert w in ws + [w];
    forall id | id in IdentitiesOn(ws, d) ensures id in IdentitiesOn(ws + [w], d) {
      var v :| v in ws && v.datum == d && v.person.identity == id;
      assert v in ws + [w];
    }
  }

  /** The identity column of `ws`, in order and with repetitions. */
  function IdentityColumn(ws: seq<Weighing>): (ids: seq<string>)
    ensures |ids| == |ws|
    ensures forall i :: 0 <= i < |ws| ==> ids[i] == ws[i].person.identity
  {
    if ws == [] then [] else [ws[0].person.identity] + IdentityColumn(ws[1..])
  }

  /** The e-mail addresses appearing in `ws`. */
  function EmailSet(ws: seq<Weighing>): set<string> {
    set w | w in ws :: w.person.email
  }

  /** The records of one group, in store order: the ancestor query. */
  function InGroup(store: seq<Weighing>, group: string): (r: seq<Weighing>)
    ensures |r| <= |store|
    ensures forall w :: w in r <==> w in store && w.group == group
    ensures forall w :: multiset(r)[w] == if w.group == group then multiset(store)[w] else 0
  {
    if store == [] then []
    else
      var n := |store| - 1;
      assert store == store[..n] + [store[n]];
      if store[n].group == group then InGroup(store[..n], group) + [store[n]]
      else InGroup(store[..n], group)
  }

  lemma {:induction false} InGroupAppend(store: seq<Weighing>, w: Weighing, group: string)
    ensures InGroup(store + [w], group) == InGroup(store, group) + (if w.group == group then [w] else [])
  {
    assert (store + [w])[..|store|] == store;
  }
}
