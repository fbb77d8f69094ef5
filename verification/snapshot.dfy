/**
 The snapshot codec: the board is stored under one key as a list of records
 `{taskTitle, status}`. Writing flattens the columns in the fixed order
 Not started, In progress, Completed; reading routes each record to the tail of
 the column its status names and drops records whose status names none.
 JSON text itself is not modelled: the stored cell holds the record list.
 */
module Snapshot {
  import opened Board

  datatype Record = Record(taskTitle: string, status: string)

  /** The records of one column, each tagged with that column's status. */
  function Tag(titles: seq<string>, s: Status): (r: seq<Record>)
    ensures |r| == |titles|
    ensures forall i :: 0 <= i < |r| ==> r[i] == Record(titles[i], Label(s))
  {
    seq(|titles|, i requires 0 <= i < |titles| => Record(titles[i], Label(s)))
  }

  /** The whole board as stored, one record per task. */
  function Serialise(b: Board): (r: seq<Record>)
    ensures |r| == Size(b)
  {
    Tag(b.notStarted, NotStarted) + Tag(b.inProgress, InProgress) + Tag(b.completed, Completed)
  }

  /** What the stored list holds at one position. */
  lemma SerialiseAt(b: Board, i: nat)
    requires i < Size(b)
    ensures i < |b.notStarted| ==> Serialise(b)[i] == Record(b.notStarted[i], "Not started")
    ensures |b.notStarted| <= i < |b.notStarted| + |b.inProgress| ==>
      Serialise(b)[i] == Record(b.inProgress[i - |b.notStarted|], "In progress")
    ensures |b.notStarted| + |b.inProgress| <= i ==>
      Serialise(b)[i] == Record(b.completed[i - |b.notStarted| - |b.inProgress|], "Completed")
  {
    var ns, ip, c := Tag(b.notStarted, NotStarted), Tag(b.inProgress, InProgress), Tag(b.completed, Completed);
    assert Serialise(b) == (ns + ip) + c;
    if i < |ns| + |ip| {
      assert Serialise(b)[i] == (ns + ip)[i];
    }
  }

  /** The stored list holds every Not started record, then every In progress
      record, then every Completed record, each column in display order. */
  lemma SerialiseOrder(b: Board)
    ensures forall i :: 0 <= i < |b.notStarted| ==>
      Serialise(b)[i] == Record(b.notStarted[i], "Not started")
    ensures forall i :: 0 <= i < |b.inProgress| ==>
      Serialise(b)[|b.notStarted| + i] == Record(b.inProgress[i], "In progress")
    ensures forall i :: 0 <= i < |b.completed| ==>
      Serialise(b)[|b.notStarted| + |b.inProgress| + i] == Record(b.completed[i], "Completed")
  {
    forall i | 0 <= i < |b.notStarted|
      ensures Serialise(b)[i] == Record(b.notStarted[i], "Not started")
    {
      SerialiseAt(b, i);
    }
    forall i | 0 <= i < |b.inProgress|
      ensures Serialise(b)[|b.notStarted| + i] == Record(b.inProgress[i], "In progress")
    {
      SerialiseAt(b, |b.notStarted| + i);
    }
    forall i | 0 <= i < |b.completed|
      ensures Serialise(b)[|b.notStarted| + |b.inProgress| + i] == Record(b.completed[i], "Completed")
    {
      SerialiseAt(b, |b.notStarted| + |b.inProgress| + i);
    }
  }

  /** Builds one column's records one task at a time, as the page does when it
      walks a list's children. */
  method CollectColumn(titles: seq<string>, s: Status) returns (records: seq<Record>)
    ensures records == Tag(titles, s)
  {
    records := [];
    var k := 0;
    while k < |titles|
      invariant 0 <= k <= |titles|
      invariant |records| == k
      invariant forall j :: 0 <= j < k ==> records[j] == Record(titles[j], Label(s))
    {
      records := records + [Record(titles[k], Label(s))];
      k := k + 1;
    }
  }

  /** The page's full re-serialisation of the board: three per-column passes,
      concatenated in column order. */
  method Collect(b: Board) returns (records: seq<Record>)
    ensures records == Serialise(b)
  {
    var notStartedRecords := CollectColumn(b.notStarted, NotStarted);
    var inProgressRecords := CollectColumn(b.inProgress, InProgress);
    var completedRecords := CollectColumn(b.completed, Completed);
    records := notStartedRecords + inProgressRecords + completedRecords;
  }

  /** The record's title when it carries `tag`, otherwise nothing. */
  function Single(rec: Record, tag: string): seq<string> {
    if rec.status == tag then [rec.taskTitle] else []
  }

  /** One record placed on the board: appended to the column its status names,
      or dropped when the status names no column. */
  function Route(b: Board, rec: Record): (r: Board)
    ensures forall s :: Column(r, s) == Column(b, s) + Single(rec, Label(s))
  {
    match ParseStatus(rec.status)
    case Some(s) => Append(b, s, rec.taskTitle)
    case None => b
  }

  /** Records placed one after another, first to last. */
  function Place(b: Board, records: seq<Record>): Board
    decreases |records|
  {
    if |records| == 0 then b else Place(Route(b, records[0]), records[1..])
  }

  /** Reading a snapshot: every record placed on an empty board. */
  function Deserialise(records: seq<Record>): Board {
    Place(Empty, records)
  }

  /** The stored list, or no records when the key is absent. */
  function Load(stored: Option<seq<Record>>): seq<Record> {
    match stored
    case None => []
    case Some(records) => records
  }

  /** Reference definition of a column read back from a snapshot: the titles of
      the records carrying `tag`, in snapshot order. */
  function TitlesWith(records: seq<Record>, tag: string): seq<string>
    decreases |records|
  {
    if |records| == 0 then [] else Single(records[0], tag) + TitlesWith(records[1..], tag)
  }

  lemma {:induction false} TitlesWithConcat(a: seq<Record>, b: seq<Record>, tag: string)
    ensures TitlesWith(a + b, tag) == TitlesWith(a, tag) + TitlesWith(b, tag)
    decreases |a|
  {
    if |a| == 0 {
      assert a + b == b;
    } else {
      assert (a + b)[1..] == a[1..] + b;
      TitlesWithConcat(a[1..], b, tag);
    }
  }

  /** Reading a column's own records with its tag gives back its titles; with
      any other tag, nothing. */
  lemma {:induction false} TitlesWithTag(titles: seq<string>, s: Status, tag: string)
    ensures TitlesWith(Tag(titles, s), tag) == if tag == Label(s) then titles else []
    decreases |titles|
  {
    var t := Tag(titles, s);
    if |titles| == 0 {
      assert t == [];
    } else {
      assert t[1..] == Tag(titles[1..], s);
      TitlesWithTag(titles[1..], s, tag);
      assert TitlesWith(t, tag) == Single(t[0], tag) + TitlesWith(t[1..], tag);
      if tag == Label(s) {
        assert Single(t[0], tag) == [titles[0]];
        assert titles == [titles[0]] + titles[1..];
      } else {
        assert Single(t[0], tag) == [];
      }
    }
  }

  /** Placing records extends each column by exactly the titles carrying its tag. */
  lemma {:induction false} PlaceColumns(b: Board, records: seq<Record>)
    ensures forall s :: Column(Place(b, records), s) == Column(b, s) + TitlesWith(records, Label(s))
    decreases |records|
  {
    if |records| > 0 {
      PlaceColumns(Route(b, records[0]), records[1..]);
    }
  }

  /** Each column of a read-back board holds the titles of the records tagged
      with that column's status, in their snapshot order; records whose status
      names no column appear in none. */
  lemma DeserialiseColumns(records: seq<Record>)
    ensures forall s :: Column(Deserialise(records), s) == TitlesWith(records, Label(s))
  {
    PlaceColumns(Empty, records);
  }

  /** The board stored in the cell: the empty board when the key is absent. */
  function Restore(stored: Option<seq<Record>>): (b: Board)
    ensures stored.None? ==> b == Empty
    ensures stored.Some? ==> forall s :: Column(b, s) == TitlesWith(stored.value, Label(s))
  {
    DeserialiseColumns(Load(stored));
    Deserialise(Load(stored))
  }

  /** The filter distributes over a three-part concatenation. */
  lemma TitlesWithThree(x: seq<Record>, y: seq<Record>, z: seq<Record>, tag: string)
    ensures TitlesWith(x + y + z, tag) == TitlesWith(x, tag) + TitlesWith(y, tag) + TitlesWith(z, tag)
  {
    TitlesWithConcat(x + y, z, tag);
    TitlesWithConcat(x, y, tag);
  }

  /** Filtering the serialisation by a column's status gives back that column. */
  lemma SerialiseFilter(b: Board, s: Status)
    ensures TitlesWith(Serialise(b), Label(s)) == Column(b, s)
  {
    var l := Label(s);
    var ns, ip, c := Tag(b.notStarted, NotStarted), Tag(b.inProgress, InProgress), Tag(b.completed, Completed);
    TitlesWithThree(ns, ip, c, l);
    TitlesWithTag(b.notStarted, NotStarted, l);
    TitlesWithTag(b.inProgress, InProgress, l);
    TitlesWithTag(b.completed, Completed, l);
    match s
    case NotStarted =>
      assert b.notStarted + [] + [] == b.notStarted;
    case InProgress =>
      assert [] + b.inProgress + [] == b.inProgress;
    case Completed =>
      assert [] + [] + b.completed == b.completed;
  }

  /** Writing a board and reading it back gives the same board. */
  lemma RoundTrip(b: Board)
    ensures Deserialise(Serialise(b)) == b
  {
    var r := Deserialise(Serialise(b));
    DeserialiseColumns(Serialise(b));
    forall s
      ensures Column(r, s) == Column(b, s)
    {
      SerialiseFilter(b, s);
    }
    Extensionality(r, b);
  }

  /** Filtering a list with one more record at its end. */
  lemma TitlesWithSnoc(records: seq<Record>, rec: Record, tag: string)
    ensures TitlesWith(records + [rec], tag) == TitlesWith(records, tag) + Single(rec, tag)
  {
    TitlesWithConcat(records, [rec], tag);
    assert TitlesWith([rec], tag) == Single(rec, tag) + TitlesWith([], tag);
  }

  /** Appending a record to a snapshot extends each read-back column by that
      record's contribution. */
  lemma DeserialiseSnocColumns(records: seq<Record>, rec: Record)
    ensures forall s :: Column(Deserialise(records + [rec]), s) == Column(Deserialise(records), s) + Single(rec, Label(s))
  {
    DeserialiseColumns(records + [rec]);
    DeserialiseColumns(records);
    forall s
      ensures TitlesWith(records + [rec], Label(s)) == TitlesWith(records, Label(s)) + Single(rec, Label(s))
    {
      TitlesWithSnoc(records, rec, Label(s));
    }
  }

  /** A record whose status names no column leaves the read-back board as it was. */
  lemma UnrecognisedIgnored(records: seq<Record>, rec: Record)
    requires ParseStatus(rec.status).None?
    ensures Deserialise(records + [rec]) == Deserialise(records)
  {
    DeserialiseSnocColumns(records, rec);
    Extensionality(Deserialise(records + [rec]), Deserialise(records));
  }

  /** Appending a record tagged with column `s` to a snapshot appends its title
      to column `s` of the read-back board. */
  lemma DeserialiseSnoc(records: seq<Record>, s: Status, title: string)
    ensures Deserialise(records + [Record(title, Label(s))]) == Append(Deserialise(records), s, title)
  {
    var rec := Record(title, Label(s));
    var a := Deserialise(records + [rec]);
    var b := Append(Deserialise(records), s, title);
    DeserialiseSnocColumns(records, rec);
    forall t
      ensures Column(a, t) == Column(b, t)
    {
      LabelInjective(s, t);
    }
    Extensionality(a, b);
  }
}
