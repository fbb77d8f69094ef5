/**
 The page's state and its handlers, as the script runs them. The state has three
 parts: the board shown in the three task lists, the module-level `savedTasks`
 list (a shadow copy of the records, set on load and extended by each add), and
 the storage cell under the "tasks" key. The add handler persists by extending
 the shadow list; delete, edit and drop persist a fresh serialisation of the
 board and leave the shadow list alone.
 */
module Page {
  import opened Board
  import opened Text
  import opened Snapshot

  datatype Page = Page(board: Board, saved: seq<Record>, stored: Option<seq<Record>>, active: Status)

  /** The stored cell reads back as the board on screen. */
  predicate Faithful(p: Page) {
    Restore(p.stored) == p.board
  }

  /** The shadow list and the stored cell both read back as the board on screen. */
  predicate InSync(p: Page) {
    Deserialise(p.saved) == p.board && Faithful(p)
  }

  /** The add handler's persistence step: when the dialog's input is non-empty,
      one record for it, tagged with the active list's status, is pushed onto the
      shadow list and the whole shadow list is written. The status is
      "Not started" or "In progress" for those two sections and "Completed" for
      any other section, which with three columns is the Completed one. */
  function SaveTasks(p: Page, input: string): (q: Page)
    ensures q.board == p.board && q.active == p.active
    ensures input == "" ==> q == p
    ensures input != "" ==> q.saved == p.saved + [Record(input, Label(p.active))]
    ensures input != "" ==> q.stored == Some(q.saved)
  {
    if input == "" then p
    else
      var saved := p.saved + [Record(input, Label(p.active))];
      p.(saved := saved, stored := Some(saved))
  }

  /** Page start-up: the shadow list is the stored list (or empty when the key is
      absent), the board is that list read back, the first list (Not started) is
      active, and the add handler's persistence step runs once with whatever the
      dialog's input holds. */
  function Start(stored: Option<seq<Record>>, input: string): (p: Page)
    ensures forall s :: Column(p.board, s) == TitlesWith(Load(stored), Label(s))
    ensures p.active == NotStarted
    ensures input == "" ==> p.saved == Load(stored) && p.stored == stored
    ensures input != "" ==> p.saved == Load(stored) + [Record(input, "Not started")]
    ensures input != "" ==> p.stored == Some(p.saved)
  {
    var loaded := Load(stored);
    SaveTasks(Page(Restore(stored), loaded, stored, NotStarted), input)
  }

  /** With an empty dialog input, start-up leaves the stored cell untouched and
      the page in sync with it. */
  lemma StartInSync(stored: Option<seq<Record>>)
    ensures InSync(Start(stored, ""))
    ensures Start(stored, "").stored == stored
  {
  }

  /** Clicking a column's add button makes that column's list the active one. */
  function OpenDialog(p: Page, s: Status): (q: Page)
    ensures q.active == s
    ensures q.board == p.board && q.saved == p.saved && q.stored == p.stored
  {
    p.(active := s)
  }

  /** Confirming the dialog (button or Enter): a title that trims to nothing
      changes nothing; otherwise the untrimmed title goes to the tail of the
      active list and the persistence step extends the shadow list with it. */
  function Submit(p: Page, input: string): (q: Page)
    ensures AllWhitespace(input) ==> q == p
    ensures !AllWhitespace(input) ==>
      && Column(q.board, p.active) == Column(p.board, p.active) + [input]
      && (forall t :: t != p.active ==> Column(q.board, t) == Column(p.board, t))
      && q.saved == p.saved + [Record(input, Label(p.active))]
      && q.stored == Some(q.saved)
      && q.active == p.active
  {
    if Trim(input) == "" then p
    else SaveTasks(p.(board := Append(p.board, p.active, input)), input)
  }

  /** The board written as a fresh serialisation; the shadow list is not touched. */
  function Persist(p: Page, b: Board): (q: Page)
    ensures q.board == b && q.saved == p.saved && q.active == p.active
    ensures q.stored == Some(Serialise(b))
  {
    p.(board := b, stored := Some(Serialise(b)))
  }

  /** A page whose stored cell holds its board's serialisation is faithful: the
      cell reads back as the board. */
  lemma WrittenFaithful(p: Page)
    requires p.stored == Some(Serialise(p.board))
    ensures Faithful(p)
  {
    RoundTrip(p.board);
  }

  /** After a fresh serialisation the stored cell reads back as the board. */
  lemma PersistFaithful(p: Page, b: Board)
    ensures Faithful(Persist(p, b))
  {
    WrittenFaithful(Persist(p, b));
  }

  /** Where a click inside a task list landed. */
  datatype ClickTarget = DeleteIcon(index: nat) | Elsewhere

  /** A click anywhere in list `s`: on a task's delete icon it removes that task;
      either way the board is re-serialised into the stored cell. */
  function ListClick(p: Page, s: Status, target: ClickTarget): (q: Page)
    requires target.DeleteIcon? ==> target.index < |Column(p.board, s)|
    ensures target.Elsewhere? ==> q.board == p.board
    ensures target.DeleteIcon? ==>
      && Column(q.board, s) == Without(Column(p.board, s), target.index)
      && Tasks(q.board) + multiset{Column(p.board, s)[target.index]} == Tasks(p.board)
    ensures forall t :: t != s ==> Column(q.board, t) == Column(p.board, t)
    ensures q.stored == Some(Serialise(q.board))
    ensures q.saved == p.saved && q.active == p.active
  {
    match target
    case DeleteIcon(i) => Persist(p, Remove(p.board, s, i))
    case Elsewhere => Persist(p, p.board)
  }

  /** The page's element tree, as far as the drop guard sees it: a section, or
      the task list inside a section (a task's parent node). */
  datatype Node = SectionNode(section: Status) | ListNode(list: Status)

  /** The drop handler's guard: there is a section under the drop point and it
      is not the dragged task's parent node. A task's parent is always a list,
      never a section, so the guard passes whenever there is a section. */
  function DropAllowed(target: Option<Status>, parent: Node): (ok: bool)
    ensures parent.ListNode? ==> (ok <==> target.Some?)
  {
    match target
    case None => false
    case Some(section) => SectionNode(section) != parent
  }

  /** Pointer `drop` of the task at `i` of list `from`
      onto section `target`: when the guard passes the task leaves its list and
      goes to the tail of the target's list, and the board is re-serialised. */
  function Drop(p: Page, from: Status, i: nat, target: Option<Status>): (q: Page)
    requires i < |Column(p.board, from)|
    ensures target.None? ==> q == p
    ensures target.Some? ==>
      var to := target.value;
      var task := Column(p.board, from)[i];
      && Tasks(q.board) == Tasks(p.board)
      && Size(q.board) == Size(p.board)
      && Column(q.board, to) == (if from == to then Without(Column(p.board, from), i) else Column(p.board, to)) + [task]
      && (from != to ==> Column(q.board, from) == Without(Column(p.board, from), i))
      && (forall t :: t != from && t != to ==> Column(q.board, t) == Column(p.board, t))
      && q.stored == Some(Serialise(q.board))
      && q.saved == p.saved && q.active == p.active
  {
    if DropAllowed(target, ListNode(from)) then
      Persist(p, MoveToTail(p.board, from, i, target.value))
    else p
  }

  /** An edit session's commit: the task at `i` of list `s` takes the input's
      value, whatever it is (the empty string included), and the board is
      re-serialised. */
  function EditTitle(p: Page, s: Status, i: nat, title: string): (q: Page)
    requires i < |Column(p.board, s)|
    ensures |Column(q.board, s)| == |Column(p.board, s)|
    ensures Column(q.board, s)[i] == title
    ensures forall j :: 0 <= j < |Column(p.board, s)| && j != i ==> Column(q.board, s)[j] == Column(p.board, s)[j]
    ensures forall t :: t != s ==> Column(q.board, t) == Column(p.board, t)
    ensures q.stored == Some(Serialise(q.board))
    ensures q.saved == p.saved && q.active == p.active
  {
    Persist(p, Retitle(p.board, s, i, title))
  }

  /** Column `s` is the last non-empty one: every column after it is empty. */
  predicate LaterColumnsEmpty(b: Board, s: Status) {
    forall t :: Rank(t) > Rank(s) ==> Column(b, t) == []
  }

  lemma TagSnoc(titles: seq<string>, s: Status, title: string)
    ensures Tag(titles + [title], s) == Tag(titles, s) + [Record(title, Label(s))]
  {
  }

  lemma AppendLastNotStarted(b: Board, title: string)
    requires b.inProgress == [] && b.completed == []
    ensures Serialise(Append(b, NotStarted, title)) == Serialise(b) + [Record(title, Label(NotStarted))]
  {
    var ns := Tag(b.notStarted, NotStarted);
    TagSnoc(b.notStarted, NotStarted, title);
    assert Append(b, NotStarted, title) == Board(b.notStarted + [title], [], []);
    assert Serialise(Board(b.notStarted + [title], [], [])) == (ns + [Record(title, Label(NotStarted))]) + [] + [];
    assert Serialise(b) == ns + [] + [];
  }

  lemma AppendLastInProgress(b: Board, title: string)
    requires b.completed == []
    ensures Serialise(Append(b, InProgress, title)) == Serialise(b) + [Record(title, Label(InProgress))]
  {
    var ns, ip := Tag(b.notStarted, NotStarted), Tag(b.inProgress, InProgress);
    TagSnoc(b.inProgress, InProgress, title);
    assert Append(b, InProgress, title) == Board(b.notStarted, b.inProgress + [title], []);
    assert Serialise(Board(b.notStarted, b.inProgress + [title], [])) == ns + (ip + [Record(title, Label(InProgress))]) + [];
    assert Serialise(b) == ns + ip + [];
  }

  lemma AppendLastCompleted(b: Board, title: string)
    ensures Serialise(Append(b, Completed, title)) == Serialise(b) + [Record(title, Label(Completed))]
  {
    var ns, ip, c := Tag(b.notStarted, NotStarted), Tag(b.inProgress, InProgress), Tag(b.completed, Completed);
    TagSnoc(b.completed, Completed, title);
    assert Append(b, Completed, title) == Board(b.notStarted, b.inProgress, b.completed + [title]);
    assert Serialise(Board(b.notStarted, b.inProgress, b.completed + [title])) == ns + ip + (c + [Record(title, Label(Completed))]);
  }

  /** Appending to the last non-empty column appends to the serialisation. */
  lemma SerialiseAppendLast(b: Board, s: Status, title: string)
    requires LaterColumnsEmpty(b, s)
    ensures Serialise(Append(b, s, title)) == Serialise(b) + [Record(title, Label(s))]
  {
    match s
    case NotStarted =>
      assert Column(b, InProgress) == [] && Column(b, Completed) == [];
      AppendLastNotStarted(b, title);
    case InProgress =>
      assert Column(b, Completed) == [];
      AppendLastInProgress(b, title);
    case Completed =>
      AppendLastCompleted(b, title);
  }

  /** Appending to a column with a non-empty column after it leaves the
      serialisation ending with a record of that later column. */
  lemma SerialiseAppendNotLast(b: Board, s: Status, title: string)
    requires !LaterColumnsEmpty(b, s)
    ensures var r := Serialise(Append(b, s, title));
      |r| > 0 && r[|r| - 1].status != Label(s)
  {
    var a := Append(b, s, title);
    var r := Serialise(a);
    var ns, ip, c := Tag(a.notStarted, NotStarted), Tag(a.inProgress, InProgress), Tag(a.completed, Completed);
    assert r == ns + ip + c;
    if b.completed != [] {
      LabelInjective(s, Completed);
      assert s != Completed && a.completed == b.completed;
      assert r[|r| - 1] == c[|c| - 1];
      assert c[|c| - 1].status == Label(Completed);
    } else {
      LabelInjective(s, InProgress);
      assert s == NotStarted && b.inProgress != [];
      assert a.inProgress == b.inProgress && a.completed == [];
      assert r == ns + ip;
      assert r[|r| - 1] == ip[|ip| - 1];
      assert ip[|ip| - 1].status == Label(InProgress);
    }
  }

  /** After an add, the stored cell is the board's serialisation exactly when the
      shadow list was the serialisation before the add and the active column has
      no non-empty column after it. */
  lemma AddStoresSerialisationIff(p: Page, input: string)
    requires !AllWhitespace(input)
    ensures Submit(p, input).stored == Some(Serialise(Submit(p, input).board))
      <==> p.saved == Serialise(p.board) && LaterColumnsEmpty(p.board, p.active)
  {
    var q := Submit(p, input);
    var rec := Record(input, Label(p.active));
    assert q.board == Append(p.board, p.active, input) by {
      Extensionality(q.board, Append(p.board, p.active, input));
    }
    if LaterColumnsEmpty(p.board, p.active) {
      SerialiseAppendLast(p.board, p.active, input);
    } else {
      SerialiseAppendNotLast(p.board, p.active, input);
    }
    if q.stored == Some(Serialise(q.board)) {
      assert p.saved + [rec] == Serialise(q.board);
      assert (p.saved + [rec])[|p.saved|] == rec;
      assert p.saved == (p.saved + [rec])[..|p.saved|];
      assert Serialise(p.board) == (Serialise(p.board) + [rec])[..|Serialise(p.board)|];
    }
  }

  /** An add keeps a page in sync: the shadow list and the stored cell both read
      back as the new board, even though the stored list is no longer in column
      order. */
  lemma AddKeepsInSync(p: Page, input: string)
    requires InSync(p)
    ensures InSync(Submit(p, input))
  {
    var q := Submit(p, input);
    if !AllWhitespace(input) {
      DeserialiseSnoc(p.saved, p.active, input);
      Extensionality(q.board, Append(p.board, p.active, input));
    }
  }

  /** Two boards that become equal after the same append were already equal. */
  lemma AppendCancel(a: Board, b: Board, s: Status, title: string)
    requires Append(a, s, title) == Append(b, s, title)
    ensures a == b
  {
    var ca, cb := Column(a, s), Column(b, s);
    assert ca == (ca + [title])[..|ca|];
    assert cb == (cb + [title])[..|cb|];
    forall t
      ensures Column(a, t) == Column(b, t)
    {
      if t != s {
        assert Column(Append(a, s, title), t) == Column(Append(b, s, title), t);
      } else {
        assert Column(Append(a, s, title), s) == Column(Append(b, s, title), s);
      }
    }
    Extensionality(a, b);
  }

  /** After an accepted add, the stored cell reads back as the board exactly
      when the shadow list read back as the board before the add. */
  lemma AddFaithfulIff(p: Page, input: string)
    requires !AllWhitespace(input)
    ensures Faithful(Submit(p, input)) <==> Deserialise(p.saved) == p.board
  {
    var q := Submit(p, input);
    DeserialiseSnoc(p.saved, p.active, input);
    assert Restore(q.stored) == Append(Deserialise(p.saved), p.active, input);
    assert q.board == Append(p.board, p.active, input) by {
      Extensionality(q.board, Append(p.board, p.active, input));
    }
    if Faithful(q) {
      AppendCancel(Deserialise(p.saved), p.board, p.active, input);
    }
  }

  /** One user action on the page. */
  datatype Event =
    | OpenDialogFor(section: Status)
    | SubmitTitle(input: string)
    | ClickInList(list: Status, target: ClickTarget)
    | DropTask(from: Status, index: nat, onto: Option<Status>)
    | CommitEdit(list: Status, index: nat, title: string)

  /** An event names only tasks that are on the board; the browser cannot
      deliver a click, drag or edit on a task that does not exist. */
  predicate Deliverable(p: Page, e: Event) {
    match e
    case OpenDialogFor(_) => true
    case SubmitTitle(_) => true
    case ClickInList(s, target) => target.DeleteIcon? ==> target.index < |Column(p.board, s)|
    case DropTask(from, i, _) => i < |Column(p.board, from)|
    case CommitEdit(s, i, _) => i < |Column(p.board, s)|
  }

  /** The handler for one event; an event that cannot be delivered changes nothing. */
  function Step(p: Page, e: Event): (q: Page)
    ensures !e.SubmitTitle? ==> q.saved == p.saved
    ensures Faithful(p) ==> Faithful(q) || e.SubmitTitle?
    ensures Deliverable(p, e) && (e.ClickInList? || e.CommitEdit? || (e.DropTask? && e.onto.Some?)) ==>
      q.stored == Some(Serialise(q.board))
  {
    if !Deliverable(p, e) then p
    else
      var q := match e
        case OpenDialogFor(s) => OpenDialog(p, s)
        case SubmitTitle(input) => Submit(p, input)
        case ClickInList(s, target) => ListClick(p, s, target)
        case DropTask(from, i, onto) => Drop(p, from, i, onto)
        case CommitEdit(s, i, title) => EditTitle(p, s, i, title);
      RoundTrip(q.board);
      q
  }

  function Run(p: Page, events: seq<Event>): Page
    decreases |events|
  {
    if |events| == 0 then p else Run(Step(p, events[0]), events[1..])
  }

  /** The shadow list is only stale after delete, edit or drop: every event other
      than an add keeps the stored cell faithful, and an add keeps a page in sync
      that was in sync. */
  lemma StepKeepsInSync(p: Page, e: Event)
    requires InSync(p)
    ensures Faithful(Step(p, e))
    ensures e.OpenDialogFor? || e.SubmitTitle? ==> InSync(Step(p, e))
  {
    if e.SubmitTitle? && Deliverable(p, e) {
      AddKeepsInSync(p, e.input);
    }
  }

  /** A session of dialog openings and adds on a page whose shadow list and
      stored cell both read back as the board keeps both reading back as it. */
  lemma {:induction false} AddsOnlyStayInSync(p: Page, events: seq<Event>)
    requires InSync(p)
    requires forall k :: 0 <= k < |events| ==> events[k].OpenDialogFor? || events[k].SubmitTitle?
    ensures InSync(Run(p, events))
    decreases |events|
  {
    if |events| > 0 {
      StepKeepsInSync(p, events[0]);
      AddsOnlyStayInSync(Step(p, events[0]), events[1..]);
    }
  }

  /** Adding a title to the empty In progress column of a two-task board. */
  lemma AddToInProgress(p: Page, x: string, y: string, title: string)
    requires p.board == Board([x, y], [], [])
    requires !AllWhitespace(title)
    ensures Submit(OpenDialog(p, InProgress), title).board == Board([x, y], [title], [])
  {
    var q := Submit(OpenDialog(p, InProgress), title);
    assert Column(q.board, InProgress) == [] + [title];
    assert Column(q.board, NotStarted) == [x, y];
    assert Column(q.board, Completed) == [];
    Extensionality(q.board, Board([x, y], [title], []));
  }

  /** Moving the first Not started task of that board to the empty Completed column. */
  lemma MoveFirstToCompleted(x: string, y: string, title: string)
    ensures MoveToTail(Board([x, y], [title], []), NotStarted, 0, Completed) == Board([y], [title], [x])
  {
    var r := MoveToTail(Board([x, y], [title], []), NotStarted, 0, Completed);
    var w := Without([x, y], 0);
    assert |w| == 1 && w[0] == y;
    assert Column(r, Completed) == [] + [x];
    Extensionality(r, Board([y], [title], [x]));
  }

  /** The same move made by a drop onto the Completed section. */
  lemma DropFirstOntoCompleted(p: Page, x: string, y: string, title: string)
    requires p.board == Board([x, y], [title], [])
    ensures Drop(p, NotStarted, 0, Some(Completed)).board == Board([y], [title], [x])
  {
    assert DropAllowed(Some(Completed), ListNode(NotStarted));
    assert Drop(p, NotStarted, 0, Some(Completed)).board == MoveToTail(p.board, NotStarted, 0, Completed);
    MoveFirstToCompleted(x, y, title);
  }

  /** Starting from x and y not started: add a title to In progress, then drop
      x onto Completed. The stored list is in column order. */
  lemma AddThenDropExample(p: Page, x: string, y: string, title: string)
    requires p.board == Board([x, y], [], [])
    requires !AllWhitespace(title)
    ensures Drop(Submit(OpenDialog(p, InProgress), title), NotStarted, 0, Some(Completed)).board
      == Board([y], [title], [x])
    ensures Drop(Submit(OpenDialog(p, InProgress), title), NotStarted, 0, Some(Completed)).stored
      == Some([Record(y, "Not started"), Record(title, "In progress"), Record(x, "Completed")])
  {
    var p2 := Submit(OpenDialog(p, InProgress), title);
    AddToInProgress(p, x, y, title);
    DropFirstOntoCompleted(p2, x, y, title);
    SerialiseOneEach(Board([y], [title], [x]), y, title, x);
  }

  lemma SerialiseOneEach(b: Board, x: string, y: string, z: string)
    requires b == Board([x], [y], [z])
    ensures Serialise(b) == [Record(x, "Not started"), Record(y, "In progress"), Record(z, "Completed")]
  {
    var r := Serialise(b);
    SerialiseOrder(b);
    assert r[0] == Record(x, "Not started");
    assert r[1] == Record(y, "In progress");
    assert r[2] == Record(z, "Completed");
  }
}
