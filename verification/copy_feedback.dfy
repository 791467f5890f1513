/** The per-prompt feedback shown on the copy buttons: a map from prompt id
    to the label text, written on a click and written again by a timer. */
module CopyFeedback {

  /** Prompt id to the text the copy button of that prompt shows. */
  type Status = map<int, string>

  const CopiedLabel: string := "Copied!"
  const DefaultLabel: string := "Copy"

  /** The status written by a click on the copy button of prompt `id`,
      spread from the status `s` the click handler saw. */
  function MarkCopied(s: Status, id: int): (r: Status)
    ensures r.Keys == s.Keys + {id}
    ensures r[id] == CopiedLabel
    ensures forall k :: k in s && k != id ==> r[k] == s[k]
  {
    s[id := CopiedLabel]
  }

  /** The status written when the feedback of prompt `id` is cleared,
      spread from the status `s` given to the clearing code. */
  function Cleared(s: Status, id: int): (r: Status)
    ensures r.Keys == s.Keys + {id}
    ensures r[id] == ""
    ensures forall k :: k in s && k != id ==> r[k] == s[k]
  {
    s[id := ""]
  }

  /** The button text: the stored label, or "Copy" when the entry is absent
      or empty (both are falsy in the source's `||`). */
  function CopyLabel(s: Status, id: int): (shown: string)
    ensures id !in s || s[id] == "" ==> shown == DefaultLabel
    ensures id in s && s[id] != "" ==> shown == s[id]
    ensures shown != ""
  {
    if id in s && s[id] != "" then s[id] else DefaultLabel
  }

  /** A click shows "Copied!" on that button, and no other button changes. */
  lemma LabelsAfterCopy(s: Status, id: int)
    ensures CopyLabel(MarkCopied(s, id), id) == CopiedLabel
    ensures forall k :: k != id ==> CopyLabel(MarkCopied(s, id), k) == CopyLabel(s, k)
  {
  }

  /** Clearing shows "Copy" on that button, and no other button changes
      relative to the status the clear was built from. */
  lemma LabelsAfterClear(s: Status, id: int)
    ensures CopyLabel(Cleared(s, id), id) == DefaultLabel
    ensures forall k :: k != id ==> CopyLabel(Cleared(s, id), k) == CopyLabel(s, k)
  {
  }

  /** With no other click in between, clearing from the click-time snapshot
      and clearing from the current status give the same status. */
  lemma SnapshotClearAgreesWhenAlone(s: Status, id: int)
    ensures Cleared(s, id) == Cleared(MarkCopied(s, id), id)
  {
  }

  /** Two overlapping clicks as the source runs them: the first click sees
      `s0`, the second sees the first one's result; each timer writes the
      snapshot its click saw. After both timers, prompt `a` still shows
      "Copied!". */
  lemma OverlappingCopiesFromSnapshots(s0: Status, a: int, b: int)
    requires a != b
    ensures var s1 := MarkCopied(s0, a);
            var afterTimers := Cleared(s1, b);
            CopyLabel(afterTimers, a) == CopiedLabel && CopyLabel(afterTimers, b) == DefaultLabel
  {
  }

  /** The same clicks when each timer clears the status current when it
      fires: both buttons return to "Copy" and every other button shows
      what it showed before the clicks. */
  lemma OverlappingCopiesFromCurrent(s0: Status, a: int, b: int)
    ensures var s2 := MarkCopied(MarkCopied(s0, a), b);
            var afterTimers := Cleared(Cleared(s2, a), b);
            CopyLabel(afterTimers, a) == DefaultLabel && CopyLabel(afterTimers, b) == DefaultLabel &&
            forall k :: k != a && k != b ==> CopyLabel(afterTimers, k) == CopyLabel(s0, k)
  {
  }
}
