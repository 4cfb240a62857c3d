/**
 * Marking attendance from one classroom image: every enrolled id starts Absent; each face
 * found in the image is compared with every stored encoding, and the id of the closest one
 * (the earliest on a tie) is marked Present when its distance is within the tolerance.
 * The table is then appended to the day's log, after a header when the file is new.
 *
 * The face library is an input: the faces of the image (`None` when the image cannot be
 * loaded) and the distance between a stored encoding and a face.
 */
module Attendance {
  import opened Wrappers
  import opened Training

  const Tolerance: real := 0.55

  datatype Status = Absent | Present

  function StatusText(s: Status): string {
    match s
    case Absent => "Absent"
    case Present => "Present"
  }

  datatype Entry = Entry(name: string, status: Status)

  /** A dictionary keyed by student id: its keys in insertion order and its current values. */
  datatype Table = Table(order: seq<string>, entries: map<string, Entry>) {

    /** Every key is listed once in `order`, and `order` lists only keys. */
    ghost predicate Valid() {
      && (forall i, j :: 0 <= i < j < |order| ==> order[i] != order[j])
      && (forall key :: key in entries <==> key in order)
    }
  }

  /**
   * Assigning `key` in a dictionary: a new key goes last, an existing key keeps its place
   * and takes the new value.
   */
  function Put(t: Table, key: string, value: Entry): (r: Table)
    requires t.Valid()
    ensures r.Valid()
    ensures key in r.entries && r.entries[key] == value
    ensures forall other :: other != key ==> (other in r.entries <==> other in t.entries)
    ensures forall other :: other != key && other in t.entries ==> r.entries[other] == t.entries[other]
    ensures |t.order| <= |r.order| && r.order[..|t.order|] == t.order
  {
    if key in t.entries then Table(t.order, t.entries[key := value])
    else Table(t.order + [key], t.entries[key := value])
  }

  /** The ids of the enrolled identities. */
  function Ids(metadata: seq<Identity>): set<string> {
    set k | 0 <= k < |metadata| :: metadata[k].id
  }

  /** Enrolling one more identity adds its id. */
  lemma IdsSnoc(metadata: seq<Identity>)
    requires metadata != []
    ensures Ids(metadata) == Ids(metadata[..|metadata| - 1]) + {metadata[|metadata| - 1].id}
  {
    var prefix := metadata[..|metadata| - 1];
    forall id | id in Ids(metadata) ensures id in Ids(prefix) + {metadata[|metadata| - 1].id} {
      var k :| 0 <= k < |metadata| && metadata[k].id == id;
      if k < |prefix| {
        assert prefix[k] == metadata[k];
        assert prefix[k].id in Ids(prefix);
      }
    }
    forall id | id in Ids(prefix) ensures id in Ids(metadata) {
      var k :| 0 <= k < |prefix| && prefix[k].id == id;
      assert metadata[k] == prefix[k];
      assert metadata[k].id in Ids(metadata);
    }
  }

  /** The attendance table before matching: one entry per id, inserted in enrollment order. */
  function Roster(metadata: seq<Identity>): (t: Table)
    ensures t.Valid()
  {
    if metadata == [] then Table([], map[])
    else
      var who := metadata[|metadata| - 1];
      Put(Roster(metadata[..|metadata| - 1]), who.id, Entry(who.name, Absent))
  }

  /** The roster holds exactly the enrolled ids, all Absent. */
  lemma {:induction false} RosterKeys(metadata: seq<Identity>)
    ensures Roster(metadata).entries.Keys == Ids(metadata)
    ensures forall id :: id in Roster(metadata).entries ==> Roster(metadata).entries[id].status == Absent
  {
    if metadata != [] {
      var prefix := metadata[..|metadata| - 1];
      RosterKeys(prefix);
      IdsSnoc(metadata);
    }
  }

  /** Enrolling one more identity sets its entry and leaves every other entry as it was. */
  lemma RosterStep(metadata: seq<Identity>, id: string)
    requires metadata != []
    ensures var prefix, who := metadata[..|metadata| - 1], metadata[|metadata| - 1];
      && who.id in Roster(metadata).entries && Roster(metadata).entries[who.id] == Entry(who.name, Absent)
      && (id != who.id && id in Roster(prefix).entries ==>
            id in Roster(metadata).entries && Roster(metadata).entries[id] == Roster(prefix).entries[id])
  {
  }

  /** When an id is enrolled more than once, the last enrollment's name wins. */
  lemma {:induction false} RosterName(metadata: seq<Identity>, k: nat)
    requires k < |metadata|
    requires forall j :: k < j < |metadata| ==> metadata[j].id != metadata[k].id
    ensures metadata[k].id in Roster(metadata).entries
    ensures Roster(metadata).entries[metadata[k].id].name == metadata[k].name
  {
    var prefix := metadata[..|metadata| - 1];
    RosterStep(metadata, metadata[k].id);
    if k < |prefix| {
      forall j | k < j < |prefix| ensures prefix[j].id != prefix[k].id {
        assert prefix[j] == metadata[j] && prefix[k] == metadata[k];
      }
      RosterName(prefix, k);
    }
  }

  /** The enrolled ids, each once, in the order of their first enrollment. */
  function FirstIds(metadata: seq<Identity>): seq<string> {
    if metadata == [] then []
    else
      var prefix, who := metadata[..|metadata| - 1], metadata[|metadata| - 1];
      if who.id in Ids(prefix) then FirstIds(prefix) else FirstIds(prefix) + [who.id]
  }

  /** The roster's keys are in first-enrollment order. */
  lemma {:induction false} RosterFirstIds(metadata: seq<Identity>)
    ensures Roster(metadata).order == FirstIds(metadata)
  {
    if metadata != [] {
      var prefix := metadata[..|metadata| - 1];
      RosterFirstIds(prefix);
      RosterKeys(prefix);
    }
  }

  /** Every id of `FirstIds` is enrolled, and its first enrollment is the one it stands for. */
  lemma {:induction false} FirstIdsListed(metadata: seq<Identity>, a: nat) returns (p: nat)
    requires a < |FirstIds(metadata)|
    ensures p < |metadata| && metadata[p].id == FirstIds(metadata)[a]
  {
    var prefix, who := metadata[..|metadata| - 1], metadata[|metadata| - 1];
    if a < |FirstIds(prefix)| {
      p := FirstIdsListed(prefix, a);
      assert metadata[p] == prefix[p];
    } else {
      p := |metadata| - 1;
    }
  }

  /**
   * Of two ids in first-enrollment order, the one listed first is enrolled at some index
   * before the other is enrolled at all.
   */
  lemma {:induction false} FirstIdsOrder(metadata: seq<Identity>, a: nat, b: nat) returns (p: nat)
    requires a < b < |FirstIds(metadata)|
    ensures p < |metadata| && metadata[p].id == FirstIds(metadata)[a]
    ensures forall q :: 0 <= q <= p ==> metadata[q].id != FirstIds(metadata)[b]
  {
    var prefix, who := metadata[..|metadata| - 1], metadata[|metadata| - 1];
    var first', first := FirstIds(prefix), FirstIds(metadata);
    assert first[..|first'|] == first';
    if b < |first'| {
      p := FirstIdsOrder(prefix, a, b);
      assert first[a] == first'[a] && first[b] == first'[b];
    } else {
      assert first == first' + [who.id] && who.id !in Ids(prefix);
      p := FirstIdsListed(prefix, a);
      assert first[a] == first'[a] && first[b] == who.id;
      forall q | 0 <= q < |prefix| ensures prefix[q].id != who.id {
        assert prefix[q].id in Ids(prefix);
      }
    }
    forall q | 0 <= q <= p ensures metadata[q].id != first[b] {
      assert metadata[q] == prefix[q];
    }
  }

  /**
   * The roster lists the ids in the order of their first enrollment: of two ids, the one
   * listed first is enrolled at some index before the other is enrolled at all.
   */
  lemma RosterOrder(metadata: seq<Identity>, a: nat, b: nat) returns (p: nat)
    requires a < b < |Roster(metadata).order|
    ensures p < |metadata| && metadata[p].id == Roster(metadata).order[a]
    ensures forall q :: 0 <= q <= p ==> metadata[q].id != Roster(metadata).order[b]
  {
    RosterFirstIds(metadata);
    p := FirstIdsOrder(metadata, a, b);
  }

  /** numpy's `argmin`: the first index of a minimum. */
  function ArgMin(ds: seq<real>): (k: nat)
    requires |ds| > 0
    ensures k < |ds|
    ensures forall j :: 0 <= j < |ds| ==> ds[k] <= ds[j]
    ensures forall j :: 0 <= j < k ==> ds[k] < ds[j]
  {
    if |ds| == 1 then 0
    else
      var k := ArgMin(ds[..|ds| - 1]);
      if ds[|ds| - 1] < ds[k] then |ds| - 1 else k
  }

  /** `face_distance`: the distance from a face to every stored encoding. */
  function Distances<E, F>(encodings: seq<E>, face: F, distance: (E, F) -> real): (ds: seq<real>)
    ensures |ds| == |encodings|
    ensures forall i :: 0 <= i < |ds| ==> ds[i] == distance(encodings[i], face)
  {
    seq(|encodings|, i requires 0 <= i < |encodings| => distance(encodings[i], face))
  }

  /**
   * The stored entry a face is recognised as: the closest one, the earliest among equally
   * close ones, provided it is within the tolerance.
   */
  function BestMatch<E, F>(encodings: seq<E>, face: F, distance: (E, F) -> real): (m: Option<nat>)
    requires |encodings| > 0
    ensures m.Some? ==> m.value < |encodings| && distance(encodings[m.value], face) <= Tolerance
    ensures m.Some? ==> forall j :: 0 <= j < |encodings| ==>
      distance(encodings[m.value], face) <= distance(encodings[j], face)
    ensures m.Some? ==> forall j :: 0 <= j < m.value ==>
      distance(encodings[m.value], face) < distance(encodings[j], face)
    ensures m.None? <==> forall j :: 0 <= j < |encodings| ==> distance(encodings[j], face) > Tolerance
  {
    var ds := Distances(encodings, face, distance);
    var best := ArgMin(ds);
    if ds[best] <= Tolerance then Some(best) else None
  }

  /** The id a face marks Present, if any. */
  function Winner<E, F>(store: Store<E>, face: F, distance: (E, F) -> real): Option<string>
    requires |store.encodings| == |store.metadata| > 0
  {
    match BestMatch(store.encodings, face, distance)
    case Some(k) => Some(store.metadata[k].id)
    case None => None
  }

  /** The ids marked Present by the faces found, one face after the other. */
  function MatchedIds<E, F>(store: Store<E>, faces: seq<F>, distance: (E, F) -> real): set<string>
    requires |store.encodings| == |store.metadata|
    requires |faces| > 0 ==> |store.encodings| > 0
  {
    if faces == [] then {}
    else
      var earlier := MatchedIds(store, faces[..|faces| - 1], distance);
      match Winner(store, faces[|faces| - 1], distance)
      case Some(id) => earlier + {id}
      case None => earlier
  }

  /** Every id marked Present is the winner of some face. */
  lemma {:induction false} MatchedIdsWitness<E, F>(store: Store<E>, faces: seq<F>, distance: (E, F) -> real, id: string)
    returns (j: nat)
    requires |store.encodings| == |store.metadata|
    requires |faces| > 0 ==> |store.encodings| > 0
    requires id in MatchedIds(store, faces, distance)
    ensures j < |faces| && Winner(store, faces[j], distance) == Some(id)
  {
    var prefix := faces[..|faces| - 1];
    if id in MatchedIds(store, prefix, distance) {
      j := MatchedIdsWitness(store, prefix, distance, id);
      assert faces[j] == prefix[j];
    } else {
      j := |faces| - 1;
    }
  }

  /** The winner of any face is marked Present. */
  lemma {:induction false} MatchedIdsHas<E, F>(store: Store<E>, faces: seq<F>, distance: (E, F) -> real, j: nat)
    requires |store.encodings| == |store.metadata| > 0
    requires j < |faces| && Winner(store, faces[j], distance).Some?
    ensures Winner(store, faces[j], distance).value in MatchedIds(store, faces, distance)
  {
    var prefix := faces[..|faces| - 1];
    if j < |prefix| {
      assert faces[j] == prefix[j];
      MatchedIdsHas(store, prefix, distance, j);
    }
  }

  /**
   * An id is marked Present exactly when it is the best match within the tolerance of at
   * least one face; every other id stays Absent.
   */
  lemma MatchedIdsIff<E, F>(store: Store<E>, faces: seq<F>, distance: (E, F) -> real, id: string)
    requires |store.encodings| == |store.metadata|
    requires |faces| > 0 ==> |store.encodings| > 0
    ensures id in MatchedIds(store, faces, distance) <==>
      exists j :: 0 <= j < |faces| && Winner(store, faces[j], distance) == Some(id)
  {
    if id in MatchedIds(store, faces, distance) {
      var j := MatchedIdsWitness(store, faces, distance, id);
    }
    if exists j :: 0 <= j < |faces| && Winner(store, faces[j], distance) == Some(id) {
      var j :| 0 <= j < |faces| && Winner(store, faces[j], distance) == Some(id);
      MatchedIdsHas(store, faces, distance, j);
    }
  }

  /** Statuses only move from Absent to Present: later faces never unmark an id. */
  lemma MatchedIdsGrow<E, F>(store: Store<E>, faces: seq<F>, distance: (E, F) -> real, n: nat)
    requires |store.encodings| == |store.metadata|
    requires |faces| > 0 ==> |store.encodings| > 0
    requires n <= |faces|
    ensures MatchedIds(store, faces[..n], distance) <= MatchedIds(store, faces, distance)
  {
    forall id | id in MatchedIds(store, faces[..n], distance)
      ensures id in MatchedIds(store, faces, distance)
    {
      var j := MatchedIdsWitness(store, faces[..n], distance, id);
      assert faces[..n][j] == faces[j];
      MatchedIdsHas(store, faces, distance, j);
    }
  }

  /** Taking one more face into account adds its winner, if it has one. */
  lemma MatchedIdsStep<E, F>(store: Store<E>, faces: seq<F>, distance: (E, F) -> real, i: nat)
    requires |store.encodings| == |store.metadata| > 0
    requires i < |faces|
    ensures var earlier := MatchedIds(store, faces[..i], distance);
      MatchedIds(store, faces[..i + 1], distance) ==
        match Winner(store, faces[i], distance)
        case Some(id) => earlier + {id}
        case None => earlier
  {
    assert faces[..i + 1][..i] == faces[..i];
  }

  /** Only enrolled ids are ever marked Present. */
  lemma {:induction false} MatchedIdsEnrolled<E, F>(store: Store<E>, faces: seq<F>, distance: (E, F) -> real)
    requires |store.encodings| == |store.metadata|
    requires |faces| > 0 ==> |store.encodings| > 0
    ensures MatchedIds(store, faces, distance) <= Ids(store.metadata)
  {
    if faces != [] {
      MatchedIdsEnrolled(store, faces[..|faces| - 1], distance);
      var w := BestMatch(store.encodings, faces[|faces| - 1], distance);
      if w.Some? {
        assert store.metadata[w.value].id in Ids(store.metadata);
      }
    }
  }

  /** The table after matching: every entry keeps its name, and is Present exactly when matched. */
  function Marked(t: Table, matched: set<string>): (r: Table)
    requires t.Valid()
    ensures r.Valid()
    ensures r.order == t.order && r.entries.Keys == t.entries.Keys
    ensures forall id :: id in r.entries ==>
      r.entries[id].name == t.entries[id].name && (r.entries[id].status == Present <==> id in matched)
  {
    Table(t.order, map id | id in t.entries :: Entry(t.entries[id].name, if id in matched then Present else Absent))
  }

  /** Marking no id leaves a table whose entries are all Absent as it is. */
  lemma MarkedNone(t: Table)
    requires t.Valid()
    requires forall id :: id in t.entries ==> t.entries[id].status == Absent
    ensures Marked(t, {}) == t
  {
    var m := Marked(t, {});
    forall id | id in t.entries ensures m.entries[id] == t.entries[id] {
    }
    assert m.entries == t.entries;
  }

  /** Marking one more id Present updates that id's entry alone. */
  lemma MarkedAdd(t: Table, matched: set<string>, id: string)
    requires t.Valid() && id in t.entries
    ensures Marked(t, matched + {id}) ==
      var m := Marked(t, matched); m.(entries := m.entries[id := m.entries[id].(status := Present)])
  {
    var m, m' := Marked(t, matched), Marked(t, matched + {id});
    var u := m.entries[id := m.entries[id].(status := Present)];
    forall key | key in u ensures m'.entries[key] == u[key] {
    }
    assert m'.entries == u;
  }

  /** The day's log file: whether it exists yet, and its rows. */
  datatype LogFile = LogFile(onDisk: bool, rows: seq<seq<string>>)

  const Header: seq<string> := ["Name", "ID", "Status", "Timestamp"]

  /** The header, written only when the day's file does not exist yet. */
  function HeaderRows(onDisk: bool): seq<seq<string>> {
    if onDisk then [] else [Header]
  }

  /** The row written for one entry of the table. */
  function Row(t: Table, id: string, timestamp: string): seq<string>
    requires id in t.entries
  {
    [t.entries[id].name, id, StatusText(t.entries[id].status), timestamp]
  }

  /** The rows written for a table: one per id, in table order. */
  function TableRows(t: Table, timestamp: string): seq<seq<string>>
    requires t.Valid()
  {
    seq(|t.order|, k requires 0 <= k < |t.order| => Row(t, t.order[k], timestamp))
  }

  /**
   * Appending the table to the day's log: the header when the file is new, then one row
   * per id in the table's order; the rows already in the file stay as they are.
   */
  method WriteLog(attendance: Table, timestamp: string, log: LogFile) returns (written: LogFile)
    requires attendance.Valid()
    ensures written == LogFile(true, log.rows + HeaderRows(log.onDisk) + TableRows(attendance, timestamp))
  {
    var rows := log.rows;
    if !log.onDisk {
      rows := rows + [Header];
    }
    ghost var before := rows;
    ghost var expected := TableRows(attendance, timestamp);
    for k := 0 to |attendance.order|
      invariant rows == before + expected[..k]
    {
      var studentId := attendance.order[k];
      var entry := attendance.entries[studentId];
      rows := rows + [[entry.name, studentId, StatusText(entry.status), timestamp]];
      assert expected[..k + 1] == expected[..k] + [expected[k]];
    }
    assert expected[..|attendance.order|] == expected;
    written := LogFile(true, rows);
  }

  /** How a run ends. */
  datatype Outcome =
    | ModelMissing      // no saved store: reported, nothing written
    | ImageUnreadable   // loading the classroom image raised: the run ends, nothing written
    | EmptyArgmin       // a face was found but the store is empty: argmin raises, nothing written
    | Recorded          // the table was appended to the day's log

  /**
   * `mark_attendance`: match every face found in the image against the store, then append
   * the attendance table to the day's log.
   */
  method MarkAttendance<E, F>(saved: Option<Store<E>>, scan: Option<seq<F>>,
                              distance: (E, F) -> real, timestamp: string, log: LogFile)
    returns (outcome: Outcome, written: LogFile)
    requires saved.Some? ==> |saved.value.encodings| == |saved.value.metadata|
    ensures outcome == ModelMissing <==> saved.None?
    ensures outcome == ImageUnreadable <==> saved.Some? && scan.None?
    ensures outcome == EmptyArgmin <==>
      saved.Some? && scan.Some? && |scan.value| > 0 && |saved.value.encodings| == 0
    ensures outcome != Recorded ==> written == log
    ensures outcome == Recorded ==>
      written == LogFile(true, log.rows + HeaderRows(log.onDisk) +
        TableRows(Marked(Roster(saved.value.metadata), MatchedIds(saved.value, scan.value, distance)), timestamp))
  {
    if saved.None? {
      return ModelMissing, log;
    }
    var data := saved.value;
    if scan.None? {
      return ImageUnreadable, log;
    }
    var faces := scan.value;

    var attendance := Roster(data.metadata);
    ghost var roster := attendance;
    RosterKeys(data.metadata);
    assert faces[..0] == [];
    MarkedNone(roster);

    for i := 0 to |faces|
      invariant i > 0 ==> |data.encodings| > 0
      invariant attendance == Marked(roster, MatchedIds(data, faces[..i], distance))
    {
      if |data.encodings| == 0 {
        return EmptyArgmin, log;
      }
      ghost var earlier := MatchedIds(data, faces[..i], distance);
      MatchedIdsStep(data, faces, distance, i);
      var distances := Distances(data.encodings, faces[i], distance);
      var bestMatch := ArgMin(distances);
      if distances[bestMatch] <= Tolerance {
        var studentId := data.metadata[bestMatch].id;
        assert Winner(data, faces[i], distance) == Some(studentId);
        assert studentId in Ids(data.metadata);
        MarkedAdd(roster, earlier, studentId);
        attendance := attendance.(entries :=
          attendance.entries[studentId := attendance.entries[studentId].(status := Present)]);
      } else {
        assert Winner(data, faces[i], distance) == None;
      }
    }
    assert faces[..|faces|] == faces;
    outcome := Recorded;
    written := WriteLog(attendance, timestamp, log);
  }

  /** The rows written for a marked table: one per id in table order, with its name and status. */
  lemma MarkedRows(t: Table, matched: set<string>, timestamp: string)
    requires t.Valid()
    ensures var rows := TableRows(Marked(t, matched), timestamp);
      && |rows| == |t.order|
      && forall r :: 0 <= r < |rows| ==>
           && t.order[r] in t.entries
           && rows[r] == [t.entries[t.order[r]].name, t.order[r],
                          if t.order[r] in matched then "Present" else "Absent", timestamp]
  {
    var m := Marked(t, matched);
    forall r | 0 <= r < |t.order| ensures t.order[r] in t.entries {
      assert t.order[r] in t.order;
    }
  }

  /** The rows of a marked table carry the table's ids, their status and the run's timestamp. */
  lemma MarkedRowsIn(t: Table, ids: set<string>, matched: set<string>, timestamp: string)
    requires t.Valid() && t.entries.Keys == ids
    ensures var rows := TableRows(Marked(t, matched), timestamp);
      forall r :: 0 <= r < |rows| ==>
        && |rows[r]| == 4 && rows[r][1] in ids && rows[r][3] == timestamp
        && rows[r][2] == (if rows[r][1] in matched then "Present" else "Absent")
  {
    MarkedRows(t, matched, timestamp);
  }

  /**
   * The rows written for the roster: one per enrolled id, each saying Present exactly when
   * the id was matched, all with the run's timestamp.
   */
  lemma RosterRowsComplete(metadata: seq<Identity>, matched: set<string>, timestamp: string)
    ensures var rows := TableRows(Marked(Roster(metadata), matched), timestamp);
      forall r :: 0 <= r < |rows| ==>
        && |rows[r]| == 4 && rows[r][1] in Ids(metadata) && rows[r][3] == timestamp
        && rows[r][2] == (if rows[r][1] in matched then "Present" else "Absent")
  {
    RosterKeys(metadata);
    MarkedRowsIn(Roster(metadata), Ids(metadata), matched, timestamp);
  }

  /** The rows list the enrolled ids in the order of their first enrollment. */
  lemma RosterRowsOrder(metadata: seq<Identity>, matched: set<string>, timestamp: string)
    ensures var rows := TableRows(Marked(Roster(metadata), matched), timestamp);
      && |rows| == |FirstIds(metadata)|
      && forall r :: 0 <= r < |rows| ==> rows[r][1] == FirstIds(metadata)[r]
  {
    RosterFirstIds(metadata);
    MarkedRows(Roster(metadata), matched, timestamp);
  }

  /** No id is written twice. */
  lemma RosterRowsDistinct(metadata: seq<Identity>, matched: set<string>, timestamp: string)
    ensures var rows := TableRows(Marked(Roster(metadata), matched), timestamp);
      forall r1, r2 :: 0 <= r1 < r2 < |rows| ==> rows[r1][1] != rows[r2][1]
  {
    MarkedRows(Roster(metadata), matched, timestamp);
  }

  /**
   * The row written for an enrolled person whose id is not enrolled again later: their
   * name, their id, Present exactly when matched, and the run's timestamp.
   */
  lemma RosterRowOf(metadata: seq<Identity>, matched: set<string>, timestamp: string, k: nat)
    returns (r: nat)
    requires k < |metadata|
    requires forall j :: k < j < |metadata| ==> metadata[j].id != metadata[k].id
    ensures r < |TableRows(Marked(Roster(metadata), matched), timestamp)|
    ensures TableRows(Marked(Roster(metadata), matched), timestamp)[r] ==
      [metadata[k].name, metadata[k].id,
       if metadata[k].id in matched then "Present" else "Absent", timestamp]
  {
    RosterName(metadata, k);
    var t := Roster(metadata);
    r :| 0 <= r < |t.order| && t.order[r] == metadata[k].id;
  }

  /** Enrolling Alice (id 1) then Bob (id 2) gives a roster of both, Absent, in that order. */
  lemma TwoStudentRoster()
    ensures Roster([Identity("Alice", "1"), Identity("Bob", "2")]) ==
      Table(["1", "2"], map["1" := Entry("Alice", Absent), "2" := Entry("Bob", Absent)])
  {
    var metadata := [Identity("Alice", "1"), Identity("Bob", "2")];
    var alice := [Identity("Alice", "1")];
    assert metadata[..1] == alice && alice[..0] == [];
    assert Roster(alice) == Table(["1"], map["1" := Entry("Alice", Absent)]);
    assert "2" != "1";
  }

  /**
   * Alice (id 1) and Bob (id 2) are enrolled; the image shows Alice's face only, within the
   * tolerance of her encoding: the rows say Alice Present and Bob Absent, in that order.
   */
  lemma ClassroomScenario(timestamp: string)
    ensures var store := Store([10, 20], [Identity("Alice", "1"), Identity("Bob", "2")]);
      var distance := (e: int, f: int) => if e == f then 0.3 else 0.9;
      TableRows(Marked(Roster(store.metadata), MatchedIds(store, [10], distance)), timestamp) ==
        [["Alice", "1", "Present", timestamp], ["Bob", "2", "Absent", timestamp]]
  {
    var store := Store([10, 20], [Identity("Alice", "1"), Identity("Bob", "2")]);
    var distance := (e: int, f: int) => if e == f then 0.3 else 0.9;
    assert BestMatch(store.encodings, 10, distance) == Some(0);
    assert MatchedIds(store, [10], distance) == {"1"};
    TwoStudentRoster();
    var m := Marked(Roster(store.metadata), {"1"});
    assert m.entries["1"] == Entry("Alice", Present) && m.entries["2"] == Entry("Bob", Absent);
    var rows := TableRows(m, timestamp);
    assert rows[0] == ["Alice", "1", "Present", timestamp];
    assert rows[1] == ["Bob", "2", "Absent", timestamp];
  }
}
