/** The undo/redo history of the command pattern. Commands are foreign objects; the
    model names them by value and records which of their `execute`/`undo` methods
    each call runs, in order. */
module CommandHistory {

  datatype Call<C> = Execute(command: C) | Undo(command: C)

  /** `history[..position + 1]` has been applied; the rest can be redone. */
  datatype History<C> = History(history: seq<C>, position: int)
  {
    ghost predicate Valid() {
      -1 <= position < |history|
    }
  }

  datatype Outcome<C> = Outcome(next: History<C>, ok: bool, calls: seq<Call<C>>)

  function Empty<C>(): History<C> {
    History([], -1)
  }

  /** A new history can neither undo nor redo, and both calls fail without running
      any command. */
  lemma EmptyCannotMove<C>(h: History<C>)
    requires h == Empty()
    ensures h.Valid() && !CanUndo(h) && !CanRedo(h)
    ensures !UndoCommand(h).ok && UndoCommand(h).calls == []
    ensures !RedoCommand(h).ok && RedoCommand(h).calls == []
  {
  }

  /** `execute(command)`: drop every command after the current position, run the
      new one, and append it. */
  function ExecuteCommand<C>(h: History<C>, c: C): (r: Outcome<C>)
    requires h.Valid()
    ensures r.next.Valid() && r.ok
    ensures r.next.history == h.history[..h.position + 1] + [c]
    ensures r.next.position == |r.next.history| - 1
    ensures !CanRedo(r.next) && CanUndo(r.next)
    ensures r.calls == [Execute(c)]
  {
    var kept := h.history[..h.position + 1];
    Outcome(History(kept + [c], h.position + 1), true, [Execute(c)])
  }

  /** `undo()`: fails before the first command; otherwise undoes the current one and
      steps back. */
  function UndoCommand<C>(h: History<C>): (r: Outcome<C>)
    requires h.Valid()
    ensures r.next.Valid()
    ensures r.ok <==> h.position >= 0
    ensures !r.ok ==> r.next == h && r.calls == []
    ensures r.ok ==> r.next.history == h.history && r.next.position == h.position - 1
    ensures r.ok ==> r.calls == [Undo(h.history[h.position])]
  {
    if h.position < 0 then Outcome(h, false, [])
    else Outcome(h.(position := h.position - 1), true, [Undo(h.history[h.position])])
  }

  /** `redo()`: fails at the last command; otherwise steps forward and re-executes
      the command there. */
  function RedoCommand<C>(h: History<C>): (r: Outcome<C>)
    requires h.Valid()
    ensures r.next.Valid()
    ensures r.ok <==> h.position < |h.history| - 1
    ensures !r.ok ==> r.next == h && r.calls == []
    ensures r.ok ==> r.next.history == h.history && r.next.position == h.position + 1
    ensures r.ok ==> r.calls == [Execute(h.history[h.position + 1])]
  {
    if h.position >= |h.history| - 1 then Outcome(h, false, [])
    else
      var p := h.position + 1;
      Outcome(h.(position := p), true, [Execute(h.history[p])])
  }

  /** `canUndo()`. */
  predicate CanUndo<C>(h: History<C>) {
    h.position >= 0
  }

  /** `canRedo()`. */
  predicate CanRedo<C>(h: History<C>) {
    h.position < |h.history| - 1
  }

  /** `clear()`. */
  function Clear<C>(h: History<C>): (r: History<C>)
    ensures r == Empty()
  {
    History([], -1)
  }

  /** `canUndo` and `canRedo` predict exactly whether `undo` and `redo` succeed. */
  lemma CanPredicts<C>(h: History<C>)
    requires h.Valid()
    ensures CanUndo(h) <==> UndoCommand(h).ok
    ensures CanRedo(h) <==> RedoCommand(h).ok
  {
  }

  /** Undo then redo returns to the same history, undoing and re-running one command. */
  lemma UndoRedo<C>(h: History<C>)
    requires h.Valid() && CanUndo(h)
    ensures var u := UndoCommand(h);
      var r := RedoCommand(u.next);
      r.ok && r.next == h && u.calls + r.calls == [Undo(h.history[h.position]), Execute(h.history[h.position])]
  {
  }

  /** Redo then undo returns to the same history. */
  lemma RedoUndo<C>(h: History<C>)
    requires h.Valid() && CanRedo(h)
    ensures var r := RedoCommand(h);
      var u := UndoCommand(r.next);
      u.ok && u.next == h && r.calls + u.calls == [Execute(h.history[h.position + 1]), Undo(h.history[h.position + 1])]
  {
  }

  /** One call on the history, for reasoning about runs of calls. */
  datatype Op<C> = Exec(c: C) | UndoOp | RedoOp

  function Apply<C>(h: History<C>, op: Op<C>): (r: History<C>)
    requires h.Valid()
    ensures r.Valid()
  {
    match op
    case Exec(c) => ExecuteCommand(h, c).next
    case UndoOp => UndoCommand(h).next
    case RedoOp => RedoCommand(h).next
  }

  function ApplyAll<C>(h: History<C>, ops: seq<Op<C>>): (r: History<C>)
    requires h.Valid()
    ensures r.Valid()
    decreases |ops|
  {
    if |ops| == 0 then h else ApplyAll(Apply(h, ops[0]), ops[1..])
  }

  /** Undoing `k` times and then redoing `k` times comes back to where it started. */
  lemma UndoRedoMany<C>(h: History<C>, k: nat)
    requires h.Valid() && k <= h.position + 1
    ensures ApplyAll(h, seq(k, _ => UndoOp) + seq(k, _ => RedoOp)) == h
  {
    ApplyAllAppend(h, seq(k, _ => UndoOp), seq(k, _ => RedoOp));
    Undos(h, k);
    Redos(h.(position := h.position - k), k);
  }

  lemma {:induction false} ApplyAllAppend<C>(h: History<C>, a: seq<Op<C>>, b: seq<Op<C>>)
    requires h.Valid()
    ensures ApplyAll(h, a + b) == ApplyAll(ApplyAll(h, a), b)
    decreases |a|
  {
    if |a| > 0 {
      assert (a + b)[0] == a[0] && (a + b)[1..] == a[1..] + b;
      ApplyAllAppend(Apply(h, a[0]), a[1..], b);
    } else {
      assert a + b == b;
    }
  }

  /** `j` undos from a valid position leave the history and step back `j` places. */
  lemma {:induction false} Undos<C>(h: History<C>, j: nat)
    requires h.Valid() && j <= h.position + 1
    ensures ApplyAll(h, seq(j, _ => UndoOp)) == h.(position := h.position - j)
    decreases j
  {
    if j > 0 {
      var ops: seq<Op<C>> := seq(j, _ => UndoOp);
      assert ops[0] == UndoOp && ops[1..] == seq(j - 1, _ => UndoOp);
      Undos(UndoCommand(h).next, j - 1);
    }
  }

  /** `j` redos with at least `j` commands ahead step forward `j` places. */
  lemma {:induction false} Redos<C>(h: History<C>, j: nat)
    requires h.Valid() && h.position + j < |h.history|
    ensures ApplyAll(h, seq(j, _ => RedoOp)) == h.(position := h.position + j)
    decreases j
  {
    if j > 0 {
      var ops: seq<Op<C>> := seq(j, _ => RedoOp);
      assert ops[0] == RedoOp && ops[1..] == seq(j - 1, _ => RedoOp);
      Redos(RedoCommand(h).next, j - 1);
    }
  }
}
