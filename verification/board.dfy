/**
 The board of the task manager: three columns, each an ordered sequence of task
 titles. A task has no identity beyond its position in its column, and titles are
 opaque strings (the page interpolates them into markup and reads them back as
 text; the model assumes that round trip is exact).
 */
module Board {

  /** The conventional Some/None wrapper, used for absent storage keys and for
      status labels that name no column. */
  datatype Option<T> = None | Some(value: T)

  /** The three fixed workflow columns, in display and serialisation order. */
  datatype Status = NotStarted | InProgress | Completed

  /** The status string stored beside each task title. */
  function Label(s: Status): string {
    match s
    case NotStarted => "Not started"
    case InProgress => "In progress"
    case Completed => "Completed"
  }

  /** Position of a column in the fixed order Not started, In progress, Completed. */
  function Rank(s: Status): nat {
    match s
    case NotStarted => 0
    case InProgress => 1
    case Completed => 2
  }

  /** Distinct columns carry distinct labels. */
  lemma LabelInjective(s: Status, t: Status)
    ensures Label(s) == Label(t) <==> s == t
  {
    if s != t {
      if s == Completed || t == Completed {
        assert |Label(s)| != |Label(t)|;
      } else {
        assert Label(s)[0] != Label(t)[0];
      }
    }
  }

  /** Recognises a stored status string; any other string names no column. */
  function ParseStatus(l: string): (r: Option<Status>)
    ensures forall s :: r == Some(s) <==> l == Label(s)
  {
    LabelInjective(NotStarted, InProgress);
    LabelInjective(NotStarted, Completed);
    LabelInjective(InProgress, Completed);
    if l == "Not started" then Some(NotStarted)
    else if l == "In progress" then Some(InProgress)
    else if l == "Completed" then Some(Completed)
    else None
  }

  datatype Board = Board(notStarted: seq<string>, inProgress: seq<string>, completed: seq<string>)

  const Empty: Board := Board([], [], [])

  function Column(b: Board, s: Status): seq<string> {
    match s
    case NotStarted => b.notStarted
    case InProgress => b.inProgress
    case Completed => b.completed
  }

  /** Two boards with the same three columns are the same board. */
  lemma Extensionality(a: Board, b: Board)
    requires forall s :: Column(a, s) == Column(b, s)
    ensures a == b
  {
    assert Column(a, NotStarted) == Column(b, NotStarted);
    assert Column(a, InProgress) == Column(b, InProgress);
    assert Column(a, Completed) == Column(b, Completed);
  }

  /** The board with column `s` replaced by `col`. */
  function WithColumn(b: Board, s: Status, col: seq<string>): (r: Board)
    ensures Column(r, s) == col
    ensures forall t :: t != s ==> Column(r, t) == Column(b, t)
  {
    match s
    case NotStarted => b.(notStarted := col)
    case InProgress => b.(inProgress := col)
    case Completed => b.(completed := col)
  }

  /** Number of tasks on the board. */
  function Size(b: Board): nat {
    |Column(b, NotStarted)| + |Column(b, InProgress)| + |Column(b, Completed)|
  }

  /** The titles on the board, counted with multiplicity. */
  function Tasks(b: Board): multiset<string> {
    multiset(Column(b, NotStarted)) + multiset(Column(b, InProgress)) + multiset(Column(b, Completed))
  }

  /** `Size` and `Tasks` change only through the column that changed. */
  lemma OneColumnChanged(b: Board, r: Board, s: Status)
    requires forall t :: t != s ==> Column(r, t) == Column(b, t)
    ensures Size(r) == Size(b) - |Column(b, s)| + |Column(r, s)|
    ensures Tasks(r) + multiset(Column(b, s)) == Tasks(b) + multiset(Column(r, s))
  {
    match s
    case NotStarted =>
      assert Column(r, InProgress) == Column(b, InProgress);
      assert Column(r, Completed) == Column(b, Completed);
    case InProgress =>
      assert Column(r, NotStarted) == Column(b, NotStarted);
      assert Column(r, Completed) == Column(b, Completed);
    case Completed =>
      assert Column(r, NotStarted) == Column(b, NotStarted);
      assert Column(r, InProgress) == Column(b, InProgress);
  }

  /** A new task at the tail of column `s`; the other columns are untouched. */
  function Append(b: Board, s: Status, title: string): (r: Board)
    ensures Column(r, s) == Column(b, s) + [title]
    ensures forall t :: t != s ==> Column(r, t) == Column(b, t)
    ensures Size(r) == Size(b) + 1
    ensures Tasks(r) == Tasks(b) + multiset{title}
  {
    var r := WithColumn(b, s, Column(b, s) + [title]);
    OneColumnChanged(b, r, s);
    r
  }

  /** The sequence without its element at `i`, the rest in order. */
  function Without(col: seq<string>, i: nat): (r: seq<string>)
    requires i < |col|
    ensures |r| == |col| - 1
    ensures forall j :: 0 <= j < i ==> r[j] == col[j]
    ensures forall j :: i <= j < |r| ==> r[j] == col[j + 1]
    ensures multiset(r) + multiset{col[i]} == multiset(col)
  {
    assert col == col[..i] + [col[i]] + col[i + 1..];
    col[..i] + col[i + 1..]
  }

  /** Column `s` without its task at `i`; the other columns are untouched. */
  function Remove(b: Board, s: Status, i: nat): (r: Board)
    requires i < |Column(b, s)|
    ensures Column(r, s) == Without(Column(b, s), i)
    ensures forall t :: t != s ==> Column(r, t) == Column(b, t)
    ensures Size(r) == Size(b) - 1
    ensures Tasks(r) + multiset{Column(b, s)[i]} == Tasks(b)
  {
    var r := WithColumn(b, s, Without(Column(b, s), i));
    OneColumnChanged(b, r, s);
    r
  }

  /** The task at position `i` of column `s` renamed to `title`; nothing else changes. */
  function Retitle(b: Board, s: Status, i: nat, title: string): (r: Board)
    requires i < |Column(b, s)|
    ensures |Column(r, s)| == |Column(b, s)|
    ensures Column(r, s)[i] == title
    ensures forall j :: 0 <= j < |Column(b, s)| && j != i ==> Column(r, s)[j] == Column(b, s)[j]
    ensures forall t :: t != s ==> Column(r, t) == Column(b, t)
    ensures Size(r) == Size(b)
  {
    var r := WithColumn(b, s, Column(b, s)[i := title]);
    OneColumnChanged(b, r, s);
    r
  }

  /** The task at `i` of column `from` taken out and appended to the tail of
      column `to` (which may be `from` itself). */
  function MoveToTail(b: Board, from: Status, i: nat, to: Status): (r: Board)
    requires i < |Column(b, from)|
    ensures Tasks(r) == Tasks(b)
    ensures Size(r) == Size(b)
    ensures from != to ==> Column(r, from) == Without(Column(b, from), i)
    ensures from != to ==> Column(r, to) == Column(b, to) + [Column(b, from)[i]]
    ensures from == to ==> Column(r, to) == Without(Column(b, from), i) + [Column(b, from)[i]]
    ensures forall t :: t != from && t != to ==> Column(r, t) == Column(b, t)
  {
    Append(Remove(b, from, i), to, Column(b, from)[i])
  }
}
