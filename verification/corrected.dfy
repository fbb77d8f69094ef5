/**
 Two places where the page's handlers do not do what they evidently mean to, each
 shown on the handlers as written and then corrected.

 1. The add handler persists by extending the `savedTasks` shadow list, which
    only start-up and adds maintain. After a delete, edit or drop the shadow list
    is stale, and the next add writes it back: the stored cell then reads back as
    the board before that delete, edit or drop, plus the new task.
 2. The drop guard compares the section under the drop point with the task's
    parent node, which is a task list and never a section, so it never rejects a
    drop: dropping a task onto its own section moves it to the tail of its list.

 The corrected page persists a fresh serialisation on add, as every other handler
 does, and compares the target section with the section holding the task's list.
 */
module Corrected {
  import opened Board
  import opened Text
  import opened Snapshot
  import opened Page

  /** As written: a delete followed by an add writes the stale shadow list, so
      the stored cell reads back with the deleted task still on the board. */
  lemma DeleteThenAddRestoresDeleted(p: Page, s: Status, i: nat, input: string)
    requires InSync(p)
    requires i < |Column(p.board, s)|
    requires !AllWhitespace(input)
    ensures var q := Submit(ListClick(p, s, DeleteIcon(i)), input);
      && Restore(q.stored) == Append(p.board, p.active, input)
      && Size(Restore(q.stored)) == Size(q.board) + 1
  {
    var d := ListClick(p, s, DeleteIcon(i));
    var q := Submit(d, input);
    DeserialiseSnoc(p.saved, p.active, input);
    assert Size(d.board) + 1 == Size(p.board) by {
      Extensionality(d.board, Remove(p.board, s, i));
    }
    assert q.board == Append(d.board, p.active, input) by {
      Extensionality(q.board, Append(d.board, p.active, input));
    }
  }

  /** A stored list of one Not started record loads in sync. */
  lemma LoadedOne(p: Page, x: string)
    requires p == Page(Board([x], [], []), [Record(x, "Not started")], Some([Record(x, "Not started")]), NotStarted)
    ensures InSync(p)
  {
    DeserialiseSnoc([], NotStarted, x);
    assert [] + [Record(x, "Not started")] == p.saved;
    Extensionality(Append(Empty, NotStarted, x), p.board);
  }

  /** Deleting the only task leaves the empty board. */
  lemma DeleteOnlyTask(p: Page, x: string)
    requires p.board == Board([x], [], [])
    ensures ListClick(p, NotStarted, DeleteIcon(0)).board == Empty
  {
    var d := ListClick(p, NotStarted, DeleteIcon(0));
    assert Column(d.board, NotStarted) == [];
    Extensionality(d.board, Empty);
  }

  /** Adding to Not started on the empty board gives a board of that one title. */
  lemma AddToEmpty(d: Page, title: string)
    requires d.board == Empty && d.active == NotStarted
    requires !AllWhitespace(title)
    ensures Submit(d, title).board == Board([title], [], [])
  {
    var q := Submit(d, title);
    assert Column(q.board, NotStarted) == [title];
    Extensionality(q.board, Board([title], [], []));
  }

  /** Appending to a one-task Not started column gives the two titles in order. */
  lemma AppendSecond(x: string, title: string)
    ensures Append(Board([x], [], []), NotStarted, title) == Board([x, title], [], [])
  {
    var r := Append(Board([x], [], []), NotStarted, title);
    assert Column(r, NotStarted) == [x] + [title];
    Extensionality(r, Board([x, title], [], []));
  }

  /** As written, on a concrete board: with task x loaded, delete it and add a
      title. The page shows only the new title, but the stored cell reads back
      as x followed by it. */
  lemma DeleteThenAddExample(p: Page, x: string, title: string)
    requires p == Page(Board([x], [], []), [Record(x, "Not started")], Some([Record(x, "Not started")]), NotStarted)
    requires !AllWhitespace(title)
    ensures Submit(ListClick(p, NotStarted, DeleteIcon(0)), title).board == Board([title], [], [])
    ensures Restore(Submit(ListClick(p, NotStarted, DeleteIcon(0)), title).stored) == Board([x, title], [], [])
  {
    LoadedOne(p, x);
    DeleteThenAddRestoresDeleted(p, NotStarted, 0, title);
    DeleteOnlyTask(p, x);
    AddToEmpty(ListClick(p, NotStarted, DeleteIcon(0)), title);
    AppendSecond(x, title);
  }

  /** Moving the first of two tasks to the tail of its own column swaps them. */
  lemma MoveFirstBehind(x: string, y: string)
    ensures MoveToTail(Board([x, y], [], []), NotStarted, 0, NotStarted) == Board([y, x], [], [])
  {
    var r := MoveToTail(Board([x, y], [], []), NotStarted, 0, NotStarted);
    var w := Without([x, y], 0);
    assert |w| == 1 && w[0] == y;
    assert Column(r, NotStarted) == [y] + [x];
    Extensionality(r, Board([y, x], [], []));
  }

  /** As written, on a concrete board: dropping the first of two tasks onto its
      own section moves it behind the other. */
  lemma SameSectionDropExample(p: Page, x: string, y: string)
    requires p.board == Board([x, y], [], [])
    ensures Drop(p, NotStarted, 0, Some(NotStarted)).board == Board([y, x], [], [])
  {
    assert DropAllowed(Some(NotStarted), ListNode(NotStarted));
    assert Drop(p, NotStarted, 0, Some(NotStarted)).board == MoveToTail(p.board, NotStarted, 0, NotStarted);
    MoveFirstBehind(x, y);
  }

  /** Corrected add: a title that trims to nothing changes nothing; otherwise the
      untrimmed title goes to the tail of the active list and the board is
      re-serialised, the shadow list with it. */
  function SubmitFixed(p: Page, input: string): (q: Page)
    ensures AllWhitespace(input) ==> q == p
    ensures !AllWhitespace(input) ==>
      && Column(q.board, p.active) == Column(p.board, p.active) + [input]
      && (forall t :: t != p.active ==> Column(q.board, t) == Column(p.board, t))
      && q.stored == Some(Serialise(q.board))
      && q.saved == Serialise(q.board)
      && q.active == p.active
  {
    if Trim(input) == "" then p
    else
      var b := Append(p.board, p.active, input);
      p.(board := b, saved := Serialise(b), stored := Some(Serialise(b)))
  }

  /** Corrected drop guard: a section is under the drop point and it is not the
      section holding the dragged task's list. */
  function DropAllowedFixed(target: Option<Status>, from: Status): bool {
    target.Some? && target.value != from
  }

  /** Corrected drop: a drop onto no section or onto the task's own section
      changes nothing; a drop onto another section moves the task to the tail of
      that section's list and re-serialises the board. */
  function DropFixed(p: Page, from: Status, i: nat, target: Option<Status>): (q: Page)
    requires i < |Column(p.board, from)|
    ensures target.None? || target == Some(from) ==> q == p
    ensures target.Some? && target.value != from ==>
      var to := target.value;
      && Column(q.board, from) == Without(Column(p.board, from), i)
      && Column(q.board, to) == Column(p.board, to) + [Column(p.board, from)[i]]
      && (forall t :: t != from && t != to ==> Column(q.board, t) == Column(p.board, t))
      && Tasks(q.board) == Tasks(p.board)
      && q.stored == Some(Serialise(q.board))
  {
    if DropAllowedFixed(target, from) then
      Persist(p, MoveToTail(p.board, from, i, target.value))
    else p
  }

  /** The corrected page's handler for one event. */
  function StepFixed(p: Page, e: Event): (q: Page)
    ensures Faithful(p) ==> Faithful(q)
  {
    if !Deliverable(p, e) then p
    else
      var q := match e
        case OpenDialogFor(s) => OpenDialog(p, s)
        case SubmitTitle(input) => SubmitFixed(p, input)
        case ClickInList(s, target) => ListClick(p, s, target)
        case DropTask(from, i, onto) => DropFixed(p, from, i, onto)
        case CommitEdit(s, i, title) => EditTitle(p, s, i, title);
      RoundTrip(q.board);
      q
  }

  function RunFixed(p: Page, events: seq<Event>): Page
    decreases |events|
  {
    if |events| == 0 then p else RunFixed(StepFixed(p, events[0]), events[1..])
  }

  /** With the corrections, the stored cell reads back as the board after every
      sequence of adds, deletes, edits and drops that starts from a page whose
      stored cell reads back as its board. */
  lemma {:induction false} RunFixedFaithful(p: Page, events: seq<Event>)
    requires Faithful(p)
    ensures Faithful(RunFixed(p, events))
    decreases |events|
  {
    if |events| > 0 {
      RunFixedFaithful(StepFixed(p, events[0]), events[1..]);
    }
  }

  lemma StartFaithful(stored: Option<seq<Record>>)
    ensures Faithful(Start(stored, ""))
  {
    StartInSync(stored);
  }
}
