/**
 The write paths: the find-or-create upsert of the current program
 (`Koerperwerte.post`), a group-scoped version of it, and the append-only
 write of the legacy program. A store is the sequence of all weighings of all
 groups; a write maps the old store to the new one.
 */
module Ledger {
  import opened Wrappers
  import opened Records
  import opened WeightText

  /**
   Why a write is rejected: nobody is signed in, the weight text is not an
   integer, or the integer does not fit the 64 bits of an `IntegerProperty`
   and `put` fails.
   */
  datatype PostError = NotLoggedIn | BadWeight | Unstorable

  /** The values an `IntegerProperty` can store: signed 64-bit integers. */
  predicate Storable(w: int) {
    -0x8000_0000_0000_0000 <= w < 0x8000_0000_0000_0000
  }

  /**
   The weight a write stores, from `parsed`, the outcome of the write path's
   parse `ParseWeight(text)` of the request's weight text: rejected when the
   text is not an integer, or when `put` cannot store the integer.
   */
  function StoredWeight(parsed: Result<int, ParseError>): (r: Result<int, PostError>)
    ensures r.Ok? <==> parsed.Ok? && Storable(parsed.value)
    ensures r.Ok? ==> r.value == parsed.value
    ensures r.Err? ==> (r.error == BadWeight <==> parsed.Err?) && r.error != NotLoggedIn
  {
    match parsed
    case Err(_) => Err(BadWeight)
    case Ok(w) => if Storable(w) then Ok(w) else Err(Unstorable)
  }

  /** The index of the first weighing that satisfies `p`. */
  function FindFirst(store: seq<Weighing>, p: Weighing -> bool): (r: Option<nat>)
    ensures r.Some? ==> r.value < |store| && p(store[r.value])
    ensures r.Some? ==> forall j :: 0 <= j < r.value ==> !p(store[j])
    ensures r.None? ==> forall j :: 0 <= j < |store| ==> !p(store[j])
  {
    if store == [] then None
    else if p(store[0]) then Some(0)
    else
      match FindFirst(store[1..], p)
      case None => None
      case Some(i) => Some(i + 1)
  }

  /** A weighing for `identity` on `datum`, in any group. */
  predicate InCell(w: Weighing, datum: int, identity: string) {
    w.datum == datum && w.person.identity == identity
  }

  /** A weighing for `identity` on `datum` in `group`. */
  predicate InGroupCell(w: Weighing, group: string, datum: int, identity: string) {
    w.group == group && InCell(w, datum, identity)
  }

  /** The lookup of the current write path, as a test on one weighing. */
  function CellTest(datum: int, identity: string): Weighing -> bool {
    x => InCell(x, datum, identity)
  }

  /** The group-scoped lookup, as a test on one weighing. */
  function GroupCellTest(group: string, datum: int, identity: string): Weighing -> bool {
    x => InGroupCell(x, group, datum, identity)
  }

  /** The store with the weight of record `i` replaced. */
  function SetWeight(store: seq<Weighing>, i: nat, weight: int): (r: seq<Weighing>)
    requires i < |store|
    ensures |r| == |store|
    ensures r[i] == store[i].(weight := weight)
    ensures forall j :: 0 <= j < |store| && j != i ==> r[j] == store[j]
  {
    store[i := store[i].(weight := weight)]
  }

  /**
   `Koerperwerte.post` as written: with a viewer, the weight is taken from
   `parsed`, the outcome of `ParseWeight` on the request's weight text, and the
   first stored record for the viewer on `datum` is updated, whatever group it
   belongs to; when there is none, a record is appended to `group`. Without a
   viewer nothing happens.
   */
  function Post(store: seq<Weighing>, group: string, viewer: Option<Person>, datum: int, parsed: Result<int, ParseError>): (r: Result<seq<Weighing>, PostError>)
    ensures viewer.None? ==> r == Ok(store)
    ensures viewer.Some? ==> (r.Err? <==> StoredWeight(parsed).Err?)
    ensures r.Err? ==> r.error == StoredWeight(parsed).error
    ensures r.Ok? && viewer.Some? ==>
      var w := parsed.value;
      match FindFirst(store, CellTest(datum, viewer.value.identity))
      case Some(i) => r.value == SetWeight(store, i, w)
      case None => r.value == store + [Weighing(group, viewer.value, datum, w)]
  {
    match viewer
    case None => Ok(store)
    case Some(person) =>
      match StoredWeight(parsed)
      case Err(e) => Err(e)
      case Ok(w) =>
        match FindFirst(store, CellTest(datum, person.identity))
        case Some(i) => Ok(SetWeight(store, i, w))
        case None => Ok(store + [Weighing(group, person, datum, w)])
  }

  /** The weights stored for `identity` on `datum` in `group`, in store order. */
  function CellWeights(store: seq<Weighing>, group: string, datum: int, identity: string): seq<int> {
    if store == [] then []
    else (if InGroupCell(store[0], group, datum, identity) then [store[0].weight] else [])
         + CellWeights(store[1..], group, datum, identity)
  }

  /**
   The lookup of `Koerperwerte.post` is not limited to the group: a write to
   group "b" by a person who has a record for the same day in group "a" changes
   the record in "a" and leaves "b" without a record for that day.
   */
  lemma {:induction false} PostCrossGroupCounterexample()
    ensures var p := Person("u1", "u1@example.org");
      var store := [Weighing("a", p, 1, 700)];
      && Post(store, "b", Some(p), 1, ParseWeight("650")) == Ok([Weighing("a", p, 1, 650)])
      && CellWeights(Post(store, "b", Some(p), 1, ParseWeight("650")).value, "b", 1, "u1") == []
      && CellWeights(Post(store, "b", Some(p), 1, ParseWeight("650")).value, "a", 1, "u1") == [650]
  {
    var p := Person("u1", "u1@example.org");
    ParseSixFifty();
    CrossGroupPostResult(p, Ok(650), [Weighing("a", p, 1, 700)]);
    CellWeightsOfOne(p);
  }

  /**
   The same for every store: when the first record of the viewer on `datum` lies
   in another group, the current write path overwrites that record and leaves
   the viewer's cell in `group` as it was, which is empty when the store has one
   record per person and day.
   */
  lemma {:induction false} PostCrossGroup(store: seq<Weighing>, group: string, viewer: Person, datum: int, parsed: Result<int, ParseError>, i: nat)
    requires StoredWeight(parsed).Ok?
    requires FindFirst(store, CellTest(datum, viewer.identity)) == Some(i)
    requires store[i].group != group
    ensures Post(store, group, Some(viewer), datum, parsed).Ok?
    ensures var s := Post(store, group, Some(viewer), datum, parsed).value;
      && |s| == |store|
      && s[i] == store[i].(weight := StoredWeight(parsed).value)
      && CellWeights(s, group, datum, viewer.identity) == CellWeights(store, group, datum, viewer.identity)
      && (OnePerCell(store) ==> CellWeights(s, group, datum, viewer.identity) == [])
  {
    var w := StoredWeight(parsed).value;
    PostUpdates(store, group, viewer, datum, parsed, i);
    var s := SetWeight(store, i, w);
    CellWeightsSame(s, store, group, datum, viewer.identity);
    if OnePerCell(store) {
      forall j | 0 <= j < |store| ensures !InGroupCell(store[j], group, datum, viewer.identity) {
        if j != i && InGroupCell(store[j], group, datum, viewer.identity) {
          assert SameSlot(store[i], store[j]);
        }
      }
      CellWeightsEmpty(store, group, datum, viewer.identity);
    }
  }

  /** Two stores that agree on which records lie in a cell, and on their weights, list the same weights for it. */
  lemma {:induction false} CellWeightsSame(a: seq<Weighing>, b: seq<Weighing>, group: string, datum: int, identity: string)
    requires |a| == |b|
    requires forall j :: 0 <= j < |a| ==> (InGroupCell(a[j], group, datum, identity) <==> InGroupCell(b[j], group, datum, identity))
    requires forall j :: 0 <= j < |a| && InGroupCell(a[j], group, datum, identity) ==> a[j].weight == b[j].weight
    ensures CellWeights(a, group, datum, identity) == CellWeights(b, group, datum, identity)
  {
    if a != [] {
      CellWeightsSame(a[1..], b[1..], group, datum, identity);
    }
  }

  /** A post to "b" of a storable weight finds the record of "a" and overwrites it. */
  lemma {:induction false} CrossGroupPostResult(p: Person, parsed: Result<int, ParseError>, store: seq<Weighing>)
    requires p.identity == "u1"
    requires StoredWeight(parsed) == Ok(650)
    requires |store| == 1 && store[0] == Weighing("a", p, 1, 700)
    ensures Post(store, "b", Some(p), 1, parsed) == Ok([Weighing("a", p, 1, 650)])
  {
    FindFirstHead(store, CellTest(1, p.identity));
    PostUpdates(store, "b", p, 1, parsed, 0);
    assert SetWeight(store, 0, 650) == [Weighing("a", p, 1, 650)];
  }

  lemma {:induction false} FindFirstHead(store: seq<Weighing>, p: Weighing -> bool)
    requires |store| > 0 && p(store[0])
    ensures FindFirst(store, p) == Some(0)
  {
  }

  /** The current upsert when the lookup finds record `i`. */
  lemma {:induction false} PostUpdates(store: seq<Weighing>, group: string, viewer: Person, datum: int, parsed: Result<int, ParseError>, i: nat)
    requires StoredWeight(parsed).Ok?
    requires FindFirst(store, CellTest(datum, viewer.identity)) == Some(i)
    ensures Post(store, group, Some(viewer), datum, parsed) == Ok(SetWeight(store, i, StoredWeight(parsed).value))
  {
  }

  /** The one-record store holds 650 in the cell of "a" and nothing in the cell of "b". */
  lemma {:induction false} CellWeightsOfOne(p: Person)
    requires p.identity == "u1"
    ensures CellWeights([Weighing("a", p, 1, 650)], "b", 1, "u1") == []
    ensures CellWeights([Weighing("a", p, 1, 650)], "a", 1, "u1") == [650]
  {
    var s := [Weighing("a", p, 1, 650)];
    assert CellWeights(s[1..], "b", 1, "u1") == [];
    assert CellWeights(s[1..], "a", 1, "u1") == [];
  }

  lemma {:induction false} ParseSixFifty()
    ensures ParseWeight("650") == Ok(650)
  {
    var text := "650";
    assert AllDigits(text);
    assert text[..2] == "65" && "65"[..1] == "6" && "6"[..0] == [];
    assert DigitsValue(text) == 650;
    ParseIntDigits(text);
    StripCommasOfDigits(text);
    ParseWeightOfAscii(text, text);
  }

  /**
   When the store holds at most one record per person and day across all
   groups, a write as written keeps it so. The premise is not an invariant of
   the program: a read of an empty group stores a seed for the viewer beside
   the viewer's records in other groups (`Aggregation.ReadDuplicatesCell`).
   */
  lemma {:induction false} PostKeepsCellsUnique(store: seq<Weighing>, group: string, viewer: Option<Person>, datum: int, parsed: Result<int, ParseError>)
    requires OnePerCell(store)
    ensures Post(store, group, viewer, datum, parsed).Ok? ==> OnePerCell(Post(store, group, viewer, datum, parsed).value)
  {
    var r := Post(store, group, viewer, datum, parsed);
    if r.Ok? && viewer.Some? {
      var found := FindFirst(store, CellTest(datum, viewer.value.identity));
      if found.None? {
        var s := r.value;
        forall i, j | 0 <= i < j < |s| ensures !SameSlot(s[i], s[j]) {
          if j == |store| {
            assert !InCell(store[i], datum, viewer.value.identity);
          }
        }
      }
    }
  }

  /**
   A write as written keeps the store free of two records for one person and
   day in one group: an update changes only a weight, and an append happens
   only when the person has no record for that day in any group.
   */
  lemma {:induction false} PostKeepsCellsInGroupUnique(store: seq<Weighing>, group: string, viewer: Option<Person>, datum: int, parsed: Result<int, ParseError>)
    requires OnePerCellInGroup(store)
    ensures Post(store, group, viewer, datum, parsed).Ok? ==> OnePerCellInGroup(Post(store, group, viewer, datum, parsed).value)
  {
    var r := Post(store, group, viewer, datum, parsed);
    if r.Ok? && viewer.Some? {
      var s := r.value;
      match FindFirst(store, CellTest(datum, viewer.value.identity))
      case Some(i) =>
        assert s == SetWeight(store, i, parsed.value);
        forall a, b | 0 <= a < b < |s| && s[a].group == s[b].group ensures !SameSlot(s[a], s[b]) {
          assert s[a].group == store[a].group && SameSlot(s[a], store[a]);
          assert s[b].group == store[b].group && SameSlot(s[b], store[b]);
        }
      case None =>
        forall a, b | 0 <= a < b < |s| && s[a].group == s[b].group ensures !SameSlot(s[a], s[b]) {
          if b == |store| {
            assert !InCell(store[a], datum, viewer.value.identity);
          }
        }
    }
  }

  // ---------------------------------------------------------------------------
  // The group-scoped upsert
  // ---------------------------------------------------------------------------

  /**
   The upsert with the lookup limited to `group`: the first record of the viewer
   on `datum` in `group` gets the new weight; when there is none, one record is
   appended to `group`.
   */
  function GroupPost(store: seq<Weighing>, group: string, viewer: Option<Person>, datum: int, parsed: Result<int, ParseError>): (r: Result<seq<Weighing>, PostError>)
    ensures viewer.None? ==> r == Ok(store)
    ensures viewer.Some? ==> (r.Err? <==> StoredWeight(parsed).Err?)
    ensures r.Err? ==> r.error == StoredWeight(parsed).error
    ensures r.Ok? && viewer.Some? ==>
      var w := parsed.value;
      match FindFirst(store, GroupCellTest(group, datum, viewer.value.identity))
      case Some(i) => r.value == SetWeight(store, i, w)
      case None => r.value == store + [Weighing(group, viewer.value, datum, w)]
  {
    match viewer
    case None => Ok(store)
    case Some(person) =>
      match StoredWeight(parsed)
      case Err(e) => Err(e)
      case Ok(w) =>
        match FindFirst(store, GroupCellTest(group, datum, person.identity))
        case Some(i) => Ok(SetWeight(store, i, w))
        case None => Ok(store + [Weighing(group, person, datum, w)])
  }

  lemma {:induction false} CellWeightsAppend(store: seq<Weighing>, x: Weighing, group: string, datum: int, identity: string)
    ensures CellWeights(store + [x], group, datum, identity) ==
      CellWeights(store, group, datum, identity) + (if InGroupCell(x, group, datum, identity) then [x.weight] else [])
  {
    if store == [] {
      assert CellWeights([x][1..], group, datum, identity) == [];
    } else {
      var head := if InGroupCell(store[0], group, datum, identity) then [store[0].weight] else [];
      var tail := if InGroupCell(x, group, datum, identity) then [x.weight] else [];
      assert (store + [x])[0] == store[0];
      assert (store + [x])[1..] == store[1..] + [x];
      CellWeightsAppend(store[1..], x, group, datum, identity);
      assert CellWeights(store + [x], group, datum, identity) == head + (CellWeights(store[1..], group, datum, identity) + tail);
      assert CellWeights(store, group, datum, identity) == head + CellWeights(store[1..], group, datum, identity);
    }
  }

  lemma {:induction false} CellWeightsEmpty(store: seq<Weighing>, group: string, datum: int, identity: string)
    requires forall j :: 0 <= j < |store| ==> !InGroupCell(store[j], group, datum, identity)
    ensures CellWeights(store, group, datum, identity) == []
  {
    if store != [] {
      CellWeightsEmpty(store[1..], group, datum, identity);
    }
  }

  lemma {:induction false} CellWeightsSingle(store: seq<Weighing>, group: string, datum: int, identity: string, i: int)
    requires OnePerCellInGroup(store)
    requires 0 <= i < |store| && InGroupCell(store[i], group, datum, identity)
    ensures CellWeights(store, group, datum, identity) == [store[i].weight]
  {
    if i == 0 {
      forall j | 0 <= j < |store[1..]| ensures !InGroupCell(store[1..][j], group, datum, identity) {
        assert !SameSlot(store[0], store[j + 1]) || store[0].group != store[j + 1].group;
      }
      CellWeightsEmpty(store[1..], group, datum, identity);
    } else {
      assert !InGroupCell(store[0], group, datum, identity) by {
        assert !SameSlot(store[0], store[i]) || store[0].group != store[i].group;
      }
      assert OnePerCellInGroup(store[1..]) by {
        forall a, b | 0 <= a < b < |store[1..]| && store[1..][a].group == store[1..][b].group
          ensures !SameSlot(store[1..][a], store[1..][b])
        {
          assert store[1..][a] == store[a + 1] && store[1..][b] == store[b + 1];
        }
      }
      CellWeightsSingle(store[1..], group, datum, identity, i - 1);
    }
  }

  /**
   After a successful group-scoped upsert into a store with at most one record
   per (group, identity, day), that cell holds exactly one record, carrying the
   new weight, and the store still has at most one record per cell.
   */
  lemma {:induction false} GroupPostLeavesOneRecord(store: seq<Weighing>, group: string, viewer: Person, datum: int, parsed: Result<int, ParseError>, w: int)
    requires OnePerCellInGroup(store)
    requires StoredWeight(parsed) == Ok(w)
    ensures GroupPost(store, group, Some(viewer), datum, parsed).Ok?
    ensures var s := GroupPost(store, group, Some(viewer), datum, parsed).value;
      && CellWeights(s, group, datum, viewer.identity) == [w]
      && OnePerCellInGroup(s)
  {
    var s := GroupPost(store, group, Some(viewer), datum, parsed).value;
    match FindFirst(store, GroupCellTest(group, datum, viewer.identity))
    case Some(i) =>
      GroupPostUpdates(store, group, viewer, datum, parsed, i);
      assert s == SetWeight(store, i, w);
      assert OnePerCellInGroup(s) by {
        forall a, b | 0 <= a < b < |s| && s[a].group == s[b].group ensures !SameSlot(s[a], s[b]) {
          assert s[a].group == store[a].group && SameSlot(s[a], store[a]);
          assert s[b].group == store[b].group && SameSlot(s[b], store[b]);
        }
      }
      CellWeightsSingle(s, group, datum, viewer.identity, i);
    case None =>
      var x := Weighing(group, viewer, datum, w);
      GroupPostAppends(store, group, viewer, datum, parsed);
      assert s == store + [x];
      CellWeightsEmpty(store, group, datum, viewer.identity);
      CellWeightsAppend(store, x, group, datum, viewer.identity);
      assert OnePerCellInGroup(s) by {
        forall a, b | 0 <= a < b < |s| && s[a].group == s[b].group ensures !SameSlot(s[a], s[b]) {
          if b == |store| {
            assert !InGroupCell(store[a], group, datum, viewer.identity);
          }
        }
      }
  }

  lemma {:induction false} InGroupSetOther(store: seq<Weighing>, i: int, weight: int, g: string)
    requires 0 <= i < |store| && store[i].group != g
    ensures InGroup(SetWeight(store, i, weight), g) == InGroup(store, g)
    decreases |store|
  {
    var s := SetWeight(store, i, weight);
    var n := |store| - 1;
    if i < n {
      assert s[..n] == SetWeight(store[..n], i, weight);
      InGroupSetOther(store[..n], i, weight, g);
      assert s[n] == store[n];
    } else {
      assert s[..n] == store[..n];
    }
  }

  /** A group-scoped upsert leaves every other group exactly as it was. */
  lemma {:induction false} GroupPostKeepsOtherGroups(store: seq<Weighing>, group: string, viewer: Option<Person>, datum: int, parsed: Result<int, ParseError>, g: string)
    requires g != group
    requires GroupPost(store, group, viewer, datum, parsed).Ok?
    ensures InGroup(GroupPost(store, group, viewer, datum, parsed).value, g) == InGroup(store, g)
  {
    if viewer.Some? {
      var w := parsed.value;
      match FindFirst(store, GroupCellTest(group, datum, viewer.value.identity))
      case Some(i) =>
        InGroupSetOther(store, i, w, g);
      case None =>
        InGroupAppend(store, Weighing(group, viewer.value, datum, w), g);
    }
  }

  /**
   A group-scoped upsert touches only the viewer's cell in `group`: every record
   outside that cell keeps its place and its contents, and the store grows by at
   most the one record it appends when the cell was empty.
   */
  lemma {:induction false} GroupPostFrame(store: seq<Weighing>, group: string, viewer: Person, datum: int, parsed: Result<int, ParseError>)
    requires GroupPost(store, group, Some(viewer), datum, parsed).Ok?
    ensures var s := GroupPost(store, group, Some(viewer), datum, parsed).value;
      && |store| <= |s| <= |store| + 1
      && (forall j :: 0 <= j < |store| && !InGroupCell(store[j], group, datum, viewer.identity) ==> s[j] == store[j])
      && (forall j :: 0 <= j < |store| ==> SameSlot(s[j], store[j]) && s[j].group == store[j].group)
      && (|s| == |store| + 1 ==>
            && s[|store|] == Weighing(group, viewer, datum, parsed.value)
            && forall j :: 0 <= j < |store| ==> !InGroupCell(store[j], group, datum, viewer.identity))
  {
    var s := GroupPost(store, group, Some(viewer), datum, parsed).value;
    var w := parsed.value;
    match FindFirst(store, GroupCellTest(group, datum, viewer.identity))
    case Some(i) =>
      assert s == SetWeight(store, i, w);
      assert InGroupCell(store[i], group, datum, viewer.identity);
    case None =>
      assert s == store + [Weighing(group, viewer, datum, w)];
  }

  /**
   The later of two writes to the same cell wins: writing `first` and then
   `second` leaves the store exactly as writing `second` alone would; writing
   the same outcome twice is the same as writing it once.
   */
  lemma {:induction false} GroupPostLastWriteWins(store: seq<Weighing>, group: string, viewer: Person, datum: int, first: Result<int, ParseError>, second: Result<int, ParseError>)
    requires GroupPost(store, group, Some(viewer), datum, first).Ok?
    ensures GroupPost(GroupPost(store, group, Some(viewer), datum, first).value, group, Some(viewer), datum, second)
         == GroupPost(store, group, Some(viewer), datum, second)
  {
    var w1 := StoredWeight(first).value;
    var s1 := GroupPost(store, group, Some(viewer), datum, first).value;
    match StoredWeight(second)
    case Err(e) =>
      assert GroupPost(s1, group, Some(viewer), datum, second) == Err(e);
    case Ok(w2) =>
      match FindFirst(store, GroupCellTest(group, datum, viewer.identity))
      case Some(i) =>
        FindAfterSet(store, group, datum, viewer.identity, i, w1);
        GroupPostUpdates(s1, group, viewer, datum, second, i);
        GroupPostUpdates(store, group, viewer, datum, second, i);
        SetWeightTwice(store, i, w1, w2);
      case None =>
        var x := Weighing(group, viewer, datum, w1);
        FindAfterAppend(store, group, datum, viewer.identity, x);
        GroupPostUpdates(s1, group, viewer, datum, second, |store|);
        GroupPostAppends(store, group, viewer, datum, second);
        assert SetWeight(store + [x], |store|, w2) == store + [Weighing(group, viewer, datum, w2)];
  }

  /** The upsert when the lookup finds record `i`. */
  lemma {:induction false} GroupPostUpdates(store: seq<Weighing>, group: string, viewer: Person, datum: int, parsed: Result<int, ParseError>, i: nat)
    requires StoredWeight(parsed).Ok?
    requires FindFirst(store, GroupCellTest(group, datum, viewer.identity)) == Some(i)
    ensures GroupPost(store, group, Some(viewer), datum, parsed) == Ok(SetWeight(store, i, StoredWeight(parsed).value))
  {
  }

  /** The upsert when the lookup finds nothing. */
  lemma {:induction false} GroupPostAppends(store: seq<Weighing>, group: string, viewer: Person, datum: int, parsed: Result<int, ParseError>)
    requires StoredWeight(parsed).Ok?
    requires FindFirst(store, GroupCellTest(group, datum, viewer.identity)).None?
    ensures GroupPost(store, group, Some(viewer), datum, parsed) == Ok(store + [Weighing(group, viewer, datum, StoredWeight(parsed).value)])
  {
  }

  /** Changing a weight moves no record into or out of a cell, so the lookup finds the same record. */
  lemma {:induction false} FindAfterSet(store: seq<Weighing>, group: string, datum: int, identity: string, i: nat, weight: int)
    requires FindFirst(store, GroupCellTest(group, datum, identity)) == Some(i)
    ensures FindFirst(SetWeight(store, i, weight), GroupCellTest(group, datum, identity)) == Some(i)
  {
    var p := GroupCellTest(group, datum, identity);
    var s := SetWeight(store, i, weight);
    assert forall j :: 0 <= j < |s| ==> (p(s[j]) <==> p(store[j]));
    var f := FindFirst(s, p);
    assert f.Some?;
    assert !(f.value < i) && !(i < f.value);
  }

  /** When the cell is empty, the lookup after the append finds the appended record. */
  lemma {:induction false} FindAfterAppend(store: seq<Weighing>, group: string, datum: int, identity: string, x: Weighing)
    requires FindFirst(store, GroupCellTest(group, datum, identity)).None?
    requires InGroupCell(x, group, datum, identity)
    ensures FindFirst(store + [x], GroupCellTest(group, datum, identity)) == Some(|store|)
  {
    var p := GroupCellTest(group, datum, identity);
    var s := store + [x];
    var f := FindFirst(s, p);
    assert p(s[|store|]);
    assert f.Some?;
    assert !(f.value < |store|);
  }

  lemma {:induction false} SetWeightTwice(store: seq<Weighing>, i: nat, first: int, second: int)
    requires i < |store|
    ensures SetWeight(SetWeight(store, i, first), i, second) == SetWeight(store, i, second)
  {
    assert SetWeight(store, i, first)[i].(weight := second) == store[i].(weight := second);
  }

  // ---------------------------------------------------------------------------
  // The legacy write path
  // ---------------------------------------------------------------------------

  /**
   The JSON write of the legacy program: it dereferences the viewer before
   anything else (failing without one), parses the weight, and always appends a
   new record.
   */
  function LegacyPost(store: seq<Weighing>, group: string, viewer: Option<Person>, datum: int, parsed: Result<int, ParseError>): (r: Result<seq<Weighing>, PostError>)
    ensures viewer.None? ==> r == Err(NotLoggedIn)
    ensures viewer.Some? ==> (r.Err? <==> StoredWeight(parsed).Err?)
    ensures viewer.Some? && r.Err? ==> r.error == StoredWeight(parsed).error
    ensures r.Ok? ==> |r.value| == |store| + 1 && r.value[..|store|] == store
    ensures r.Ok? ==> r.value[|store|] == Weighing(group, viewer.value, datum, parsed.value)
  {
    match viewer
    case None => Err(NotLoggedIn)
    case Some(person) =>
      match StoredWeight(parsed)
      case Err(e) => Err(e)
      case Ok(w) => Ok(store + [Weighing(group, person, datum, w)])
  }

  /**
   The legacy write never updates: posting the same weight twice adds two
   records to the cell, so the store no longer has one record per cell.
   */
  lemma {:induction false} LegacyPostDuplicates(store: seq<Weighing>, group: string, viewer: Person, datum: int, parsed: Result<int, ParseError>, w: int)
    requires StoredWeight(parsed) == Ok(w)
    ensures LegacyPost(store, group, Some(viewer), datum, parsed).Ok?
    ensures var once := LegacyPost(store, group, Some(viewer), datum, parsed).value;
      && LegacyPost(once, group, Some(viewer), datum, parsed).Ok?
      && var twice := LegacyPost(once, group, Some(viewer), datum, parsed).value;
      && CellWeights(twice, group, datum, viewer.identity) == CellWeights(store, group, datum, viewer.identity) + [w, w]
      && !OnePerCellInGroup(twice)
  {
    var x := Weighing(group, viewer, datum, w);
    var once := store + [x];
    var twice := once + [x];
    CellWeightsAppend(store, x, group, datum, viewer.identity);
    CellWeightsAppend(once, x, group, datum, viewer.identity);
    assert twice[|store|] == x && twice[|store| + 1] == x;
  }
}
