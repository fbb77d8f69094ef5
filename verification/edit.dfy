/**
 The in-place title edit. Clicking a task's edit icon swaps its title for a text
 input pre-filled with the current title and focuses it. An Enter keyup sets the
 session's `keyPressed` flag and commits; a blur commits unless the flag is set,
 in which case it only clears the flag. Committing swaps the input back for a
 title element holding the input's value and re-serialises the board.

 The browser delivers typing and keys only to an input that is in the page and
 focused, and a blur only to a focused input; the input is removed by the
 commit, so at most one blur can follow an Enter commit.
 */
module EditSession {
  import opened Board
  import opened Snapshot
  import opened Page

  datatype EditEvent = Type(text: string) | EnterKey | Blur

  /** One edit session on the task at `index` of list `list`. `attached` says the
      input is still in the page; `commits` lists the values written to the
      title, and `writes` counts the board serialisations the session caused. */
  datatype Session = Session(
    list: Status, index: nat, value: string,
    keyPressed: bool, attached: bool, focused: bool,
    commits: seq<string>, writes: nat)

  /** Opening a session on a task: its input starts with the current title. */
  function Open(p: Page, s: Status, i: nat): (e: Session)
    requires i < |Column(p.board, s)|
    ensures e.list == s && e.index == i
    ensures e.value == Column(p.board, s)[i]
    ensures e.attached && e.focused && !e.keyPressed
    ensures e.commits == [] && e.writes == 0
  {
    Session(s, i, Column(p.board, s)[i], false, true, true, [], 0)
  }

  /** The shared commit: while the input is in the page it is replaced by a title
      holding its value; a detached input cannot be replaced, and the board is
      re-serialised either way. */
  function Commit(e: Session, p: Page): (r: (Session, Page))
    requires e.index < |Column(p.board, e.list)|
    ensures r.0.writes == e.writes + 1 && !r.0.attached
    ensures r.0.list == e.list && r.0.index == e.index
    ensures e.attached ==> (r.0.commits == e.commits + [e.value] && r.1 == EditTitle(p, e.list, e.index, e.value))
    ensures !e.attached ==> r.0.commits == e.commits && r.1.board == p.board
    ensures r.1.stored == Some(Serialise(r.1.board))
  {
    if e.attached then
      (e.(attached := false, commits := e.commits + [e.value], writes := e.writes + 1),
       EditTitle(p, e.list, e.index, e.value))
    else
      (e.(writes := e.writes + 1), Persist(p, p.board))
  }

  /** One browser event on the session's input. */
  function Step(e: Session, p: Page, ev: EditEvent): (r: (Session, Page))
    requires e.index < |Column(p.board, e.list)|
    ensures r.0.list == e.list && r.0.index == e.index
    ensures |Column(r.1.board, e.list)| == |Column(p.board, e.list)|
  {
    match ev
    case Type(text) =>
      if e.attached && e.focused then (e.(value := text), p) else (e, p)
    case EnterKey =>
      if e.attached && e.focused then Commit(e.(keyPressed := true), p) else (e, p)
    case Blur =>
      if !e.focused then (e, p)
      else if e.keyPressed then (e.(keyPressed := false, focused := false), p)
      else Commit(e.(focused := false), p)
  }

  function Run(e: Session, p: Page, events: seq<EditEvent>): (r: (Session, Page))
    requires e.index < |Column(p.board, e.list)|
    ensures r.0.list == e.list && r.0.index == e.index
    decreases |events|
  {
    if |events| == 0 then (e, p)
    else
      var (e', p') := Step(e, p, events[0]);
      Run(e', p', events[1..])
  }

  lemma RunUnfold(e: Session, p: Page, events: seq<EditEvent>)
    requires e.index < |Column(p.board, e.list)|
    ensures |events| > 0 ==> Run(e, p, events) == Run(Step(e, p, events[0]).0, Step(e, p, events[0]).1, events[1..])
    ensures |events| == 0 ==> Run(e, p, events) == (e, p)
  {
  }

  /** What holds of a session opened on `p0` after any events: before a commit
      the input is live and nothing was written; after it the task holds the
      one committed value, written once, and a still-focused detached input has
      its flag set, so its blur commits nothing. */
  predicate Invariant(e: Session, p0: Page, p: Page) {
    && e.index < |Column(p0.board, e.list)|
    && (e.attached ==> e.focused && !e.keyPressed && e.commits == [] && e.writes == 0 && p == p0)
    && (!e.attached ==> (|e.commits| == 1 && e.writes == 1 && p == EditTitle(p0, e.list, e.index, e.commits[0])))
    && (!e.attached && e.focused ==> e.keyPressed)
  }

  /** A commit from a live input whose blur can no longer commit reaches the
      committed half of the invariant. */
  lemma CommitKeepsInvariant(f: Session, p0: Page)
    requires f.index < |Column(p0.board, f.list)|
    requires f.attached && f.commits == [] && f.writes == 0
    requires f.focused ==> f.keyPressed
    ensures Invariant(Commit(f, p0).0, p0, Commit(f, p0).1)
  {
    var r := Commit(f, p0);
    assert r.0.commits == [f.value];
  }

  lemma EnterKeepsInvariant(e: Session, p0: Page, p: Page)
    requires Invariant(e, p0, p)
    ensures Invariant(Step(e, p, EnterKey).0, p0, Step(e, p, EnterKey).1)
  {
    if e.attached && e.focused {
      CommitKeepsInvariant(e.(keyPressed := true), p0);
    }
  }

  lemma BlurKeepsInvariant(e: Session, p0: Page, p: Page)
    requires Invariant(e, p0, p)
    ensures Invariant(Step(e, p, Blur).0, p0, Step(e, p, Blur).1)
  {
    if e.focused && !e.keyPressed {
      assert e.attached && p == p0;
      CommitKeepsInvariant(e.(focused := false), p0);
    }
  }

  lemma StepKeepsInvariant(e: Session, p0: Page, p: Page, ev: EditEvent)
    requires Invariant(e, p0, p)
    ensures e.index < |Column(p.board, e.list)|
    ensures Invariant(Step(e, p, ev).0, p0, Step(e, p, ev).1)
  {
    match ev
    case Type(_) =>
    case EnterKey => EnterKeepsInvariant(e, p0, p);
    case Blur => BlurKeepsInvariant(e, p0, p);
  }

  lemma {:induction false} RunKeepsInvariant(e: Session, p0: Page, p: Page, events: seq<EditEvent>)
    requires Invariant(e, p0, p)
    ensures e.index < |Column(p.board, e.list)|
    ensures var (e', p') := Run(e, p, events); Invariant(e', p0, p')
    decreases |events|
  {
    StepKeepsInvariant(e, p0, p, if |events| > 0 then events[0] else Blur);
    if |events| > 0 {
      var (e', p') := Step(e, p, events[0]);
      RunKeepsInvariant(e', p0, p', events[1..]);
    }
  }

  /** Whatever events arrive, a session commits at most once and serialises the
      board at most once; if it committed, the task holds the committed value
      (any string, the empty one included), nothing else on the board changed,
      and the stored cell holds the board's serialisation. */
  lemma AtMostOneCommit(p: Page, s: Status, i: nat, events: seq<EditEvent>)
    requires i < |Column(p.board, s)|
    ensures var (e, q) := Run(Open(p, s, i), p, events);
      && |e.commits| <= 1 && e.writes == |e.commits|
      && (e.commits == [] ==> q == p)
      && (|e.commits| == 1 ==> q == EditTitle(p, s, i, e.commits[0]))
  {
    RunKeepsInvariant(Open(p, s, i), p, p, events);
  }

  /** Enter followed by the blur of the removed input commits once, with the
      value the input held when Enter was released; typing after the commit
      reaches no input. */
  lemma EnterThenBlur(p: Page, s: Status, i: nat, v: string, w: string)
    requires i < |Column(p.board, s)|
    ensures Run(Open(p, s, i), p, [Type(v), EnterKey, Type(w), Blur]).0.commits == [v]
    ensures Run(Open(p, s, i), p, [Type(v), EnterKey, Type(w), Blur]).0.writes == 1
    ensures Run(Open(p, s, i), p, [Type(v), EnterKey, Type(w), Blur]).1 == EditTitle(p, s, i, v)
  {
    var e0 := Open(p, s, i);
    var e1 := e0.(value := v);
    var t0 := [Type(v), EnterKey, Type(w), Blur];
    var rest := [Type(w), Blur];
    assert t0[1..] == [EnterKey] + rest;
    RunUnfold(e0, p, t0);
    assert Run(e0, p, t0) == Run(e1, p, [EnterKey] + rest);
    EnterThenAnything(p, e1, rest);
  }

  /** After an Enter commit, typing and the removed input's blur change nothing
      more on the page and commit nothing more. */
  lemma EnterThenAnything(p: Page, e: Session, rest: seq<EditEvent>)
    requires e.index < |Column(p.board, e.list)|
    requires e.attached && e.focused && !e.keyPressed && e.commits == [] && e.writes == 0
    requires forall k :: 0 <= k < |rest| ==> rest[k].Type? || rest[k].Blur?
    ensures var (e', q) := Run(e, p, [EnterKey] + rest);
      e'.commits == [e.value] && e'.writes == 1 && q == EditTitle(p, e.list, e.index, e.value)
  {
    var (e1, p1) := Step(e, p, EnterKey);
    RunUnfold(e, p, [EnterKey] + rest);
    assert ([EnterKey] + rest)[1..] == rest;
    DetachedIsInert(e1, p1, rest);
  }

  lemma {:induction false} DetachedIsInert(e: Session, p: Page, rest: seq<EditEvent>)
    requires e.index < |Column(p.board, e.list)|
    requires !e.attached && (e.focused ==> e.keyPressed)
    ensures Run(e, p, rest).1 == p
    ensures Run(e, p, rest).0.commits == e.commits && Run(e, p, rest).0.writes == e.writes
    decreases |rest|
  {
    RunUnfold(e, p, rest);
    if |rest| > 0 {
      var (e1, p1) := Step(e, p, rest[0]);
      DetachedIsInert(e1, p1, rest[1..]);
    }
  }

  /** A blur on its own commits once, with the input's current value. */
  lemma BlurAlone(p: Page, s: Status, i: nat, v: string)
    requires i < |Column(p.board, s)|
    ensures Run(Open(p, s, i), p, [Type(v), Blur]).0.commits == [v]
    ensures Run(Open(p, s, i), p, [Type(v), Blur]).0.writes == 1
    ensures Run(Open(p, s, i), p, [Type(v), Blur]).1 == EditTitle(p, s, i, v)
  {
    var e0 := Open(p, s, i);
    var e1 := e0.(value := v);
    var t0 := [Type(v), Blur];
    assert t0[1..] == [Blur];
    RunUnfold(e0, p, t0);
    assert Run(e0, p, t0) == Run(e1, p, [Blur]);
    var r := Commit(e1.(focused := false), p);
    assert Step(e1, p, Blur) == r;
    assert r.0.commits == [v] && r.0.writes == 1 && r.1 == EditTitle(p, s, i, v);
    RunUnfold(e1, p, [Blur]);
    assert [Blur][1..] == [];
    RunUnfold(r.0, r.1, []);
  }

}
