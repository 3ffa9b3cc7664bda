/** The editor's undo/redo history and the selection of instances for a
    selective replacement. */
module History {
  import opened Outcomes

  /** At most this many texts are remembered. */
  const MAX_HISTORY_SIZE: nat := 50

  /** The editor state the history logic reads and writes: the current text,
      the text the session started from, the remembered texts, the position
      of the current one among them, and the selected colour value. */
  datatype Editor = Editor(
    text: string,
    originalText: string,
    history: seq<string>,
    index: nat,
    selectedColor: Option<string>)

  /** The history is never empty, never longer than the bound, and the
      position points into it. */
  predicate Valid(e: Editor) {
    1 <= |e.history| <= MAX_HISTORY_SIZE && e.index < |e.history|
  }

  /** The current text is the remembered one at the current position. */
  predicate Synced(e: Editor) {
    e.index < |e.history| && e.text == e.history[e.index]
  }

  /** The state on mounting: one remembered text, the start text. */
  function Initial(start: string): (e: Editor)
    ensures Valid(e) && Synced(e) && !CanUndo(e) && !CanRedo(e)
  {
    Editor(start, start, [start], 0, None)
  }

  /** `canUndo` */
  predicate CanUndo(e: Editor) {
    e.index > 0
  }

  /** `canRedo` */
  predicate CanRedo(e: Editor) {
    e.index < |e.history| - 1
  }

  /** `updateTextWithHistory(newText)`: an unchanged text is ignored;
      otherwise the texts after the current one are dropped, the new text is
      appended, the oldest text is dropped when the bound is exceeded, and
      the new text becomes current. */
  function Update(e: Editor, newText: string): (r: Editor)
    requires e.index < |e.history|
    ensures newText == e.text ==> r == e
    ensures newText != e.text ==>
      && r.text == newText
      && r.index == |r.history| - 1
      && r.history[r.index] == newText
      && r.originalText == e.originalText && r.selectedColor == e.selectedColor
      && (e.index + 2 <= MAX_HISTORY_SIZE ==> r.history == e.history[..e.index + 1] + [newText])
      && (e.index + 2 > MAX_HISTORY_SIZE ==> r.history == e.history[1..e.index + 1] + [newText])
  {
    if newText == e.text then e
    else
      var newHistory := e.history[..e.index + 1] + [newText];
      var trimmed := if |newHistory| > MAX_HISTORY_SIZE then newHistory[1..] else newHistory;
      e.(history := trimmed, index := |trimmed| - 1, text := newText)
  }

  /** The undo and redo buttons are enabled exactly when pressing them
      changes the state. */
  lemma ButtonsEnabled(e: Editor)
    requires e.index < |e.history|
    ensures CanUndo(e) <==> Undo(e) != e
    ensures CanRedo(e) <==> Redo(e) != e
  {
  }

  /** `handleUndo` */
  function Undo(e: Editor): (r: Editor)
    requires e.index < |e.history|
    ensures CanUndo(e) ==> r.index == e.index - 1 && r.text == e.history[e.index - 1]
    ensures !CanUndo(e) ==> r == e
    ensures r.history == e.history
  {
    if e.index > 0 then e.(index := e.index - 1, text := e.history[e.index - 1]) else e
  }

  /** `handleRedo` */
  function Redo(e: Editor): (r: Editor)
    requires e.index < |e.history|
    ensures CanRedo(e) ==> r.index == e.index + 1 && r.text == e.history[e.index + 1]
    ensures !CanRedo(e) ==> r == e
    ensures r.history == e.history
  {
    if e.index < |e.history| - 1 then e.(index := e.index + 1, text := e.history[e.index + 1]) else e
  }

  /** `handleReset`: back to the original text, nothing selected; the history
      is left as it is. */
  function Reset(e: Editor): (r: Editor)
    ensures r.text == e.originalText && r.selectedColor == None
    ensures r.history == e.history && r.index == e.index && r.originalText == e.originalText
  {
    e.(text := e.originalText, selectedColor := None)
  }

  /** Every operation keeps the history well formed. */
  lemma OperationsKeepValid(e: Editor, newText: string)
    requires Valid(e)
    ensures Valid(Update(e, newText)) && Valid(Undo(e)) && Valid(Redo(e)) && Valid(Reset(e))
  {
    if newText != e.text {
      var r := Update(e, newText);
      assert |r.history| <= MAX_HISTORY_SIZE by {
        if e.index + 2 <= MAX_HISTORY_SIZE {
          assert |r.history| == e.index + 2;
        } else {
          assert |r.history| == e.index + 1;
        }
      }
    }
  }

  /** Undo and redo move along the history without losing the current
      text: they keep the state synced. */
  lemma MovesKeepSynced(e: Editor, newText: string)
    requires Valid(e) && Synced(e)
    ensures Synced(Undo(e)) && Synced(Redo(e)) && Synced(Update(e, newText))
  {
  }

  /** Undoing after an edit gives back the text from before the edit, even
      when the edit pushed the oldest text out; redoing then restores the
      edit. */
  lemma UndoAfterUpdate(e: Editor, newText: string)
    requires Valid(e) && Synced(e) && newText != e.text
    ensures var u := Update(e, newText);
      && CanUndo(u) && !CanRedo(u)
      && Undo(u).text == e.text
      && Redo(Undo(u)) == u
  {
    var u := Update(e, newText);
    if e.index + 2 <= MAX_HISTORY_SIZE {
      assert u.history[u.index - 1] == e.history[e.index];
    } else {
      assert u.index == e.index;
      assert u.history[u.index - 1] == e.history[1..e.index + 1][e.index - 1];
    }
  }

  /** On a synced state, redo undoes an undo and undo undoes a redo. */
  lemma UndoRedoInverse(e: Editor)
    requires Valid(e) && Synced(e)
    ensures CanUndo(e) ==> Redo(Undo(e)) == e
    ensures CanRedo(e) ==> Undo(Redo(e)) == e
  {
  }

  /** An edit that changes nothing leaves the history alone; an edit that
      changes the text leaves nothing to redo. */
  lemma UpdateClearsRedo(e: Editor, newText: string)
    requires Valid(e)
    ensures newText == e.text ==> Update(e, newText) == e
    ensures newText != e.text ==> !CanRedo(Update(e, newText)) && CanUndo(Update(e, newText))
  {
  }

  /** Reset is not recorded: from a synced state whose current text differs
      from the original, it leaves the text out of step with the history,
      and an undo or redo then discards the reset text. */
  lemma ResetUnrecorded(e: Editor)
    requires Valid(e) && Synced(e) && e.text != e.originalText
    ensures !Synced(Reset(e))
    ensures CanUndo(e) ==> Undo(Reset(e)).text == e.history[e.index - 1]
  {
  }

  /** `toggleInstance(id)`: remove the id if it is selected, append it
      otherwise. */
  function ToggleInstance(selected: seq<string>, id: string): (r: seq<string>)
    ensures id in r <==> id !in selected
    ensures forall x :: x != id ==> (x in r <==> x in selected)
    ensures id !in selected ==> r == selected + [id]
  {
    if id in selected then Remove(selected, id) else selected + [id]
  }

  /** `prev.filter(i => i !== id)` */
  function Remove(s: seq<string>, id: string): (r: seq<string>)
    ensures id !in r
    ensures forall x :: x != id ==> (x in r <==> x in s)
    ensures |r| <= |s|
  {
    if |s| == 0 then []
    else if s[0] == id then Remove(s[1..], id)
    else [s[0]] + Remove(s[1..], id)
  }

  predicate NoDuplicates(s: seq<string>) {
    forall a, b :: 0 <= a < b < |s| ==> s[a] != s[b]
  }

  /** Toggling flips the id's membership and no other, and keeps the
      selection free of duplicates. */
  lemma ToggleFlips(selected: seq<string>, id: string)
    requires NoDuplicates(selected)
    ensures var r := ToggleInstance(selected, id);
      && (id in r <==> id !in selected)
      && (forall x :: x != id ==> (x in r <==> x in selected))
      && NoDuplicates(r)
  {
    if id in selected {
      RemoveNoDuplicates(selected, id);
    }
  }

  /** Toggling an unselected id twice gives back the selection. */
  lemma ToggleTwice(selected: seq<string>, id: string)
    requires id !in selected
    ensures ToggleInstance(ToggleInstance(selected, id), id) == selected
  {
    RemoveLast(selected, id);
  }

  lemma {:induction false} RemoveLast(s: seq<string>, id: string)
    requires id !in s
    ensures Remove(s + [id], id) == s
    decreases |s|
  {
    if |s| == 0 {
      assert [id][1..] == [];
    } else {
      assert (s + [id])[1..] == s[1..] + [id];
      RemoveLast(s[1..], id);
    }
  }

  lemma {:induction false} RemoveNoDuplicates(s: seq<string>, id: string)
    requires NoDuplicates(s)
    ensures NoDuplicates(Remove(s, id))
    decreases |s|
  {
    if |s| > 0 {
      RemoveNoDuplicates(s[1..], id);
      if s[0] != id {
        var rest := Remove(s[1..], id);
        assert s[0] !in s[1..];
        assert s[0] !in rest;
        var r := [s[0]] + rest;
        forall a, b | 0 <= a < b < |r| ensures r[a] != r[b] {
          if a == 0 {
            assert r[b] == rest[b - 1];
          } else {
            assert r[a] == rest[a - 1] && r[b] == rest[b - 1];
          }
        }
      }
    }
  }
}
