/** The decision taken on one key press: whether the overlay closes, and which
    window, if any, is focused. */
module Keypress {
  import opened Types
  import opened Wrappers

  /** `sub` occurs as a contiguous run of characters in `s` (the string
      `contains` test; the empty string occurs everywhere). */
  predicate Contains(s: string, sub: string)
  {
    exists i :: 0 <= i <= |s| && sub <= s[i..]
  }

  datatype KeyOutcome = KeyOutcome(terminate: bool, focus: Option<Address>)

  /** A key name that occurs in the label alphabet selects by its first
      character: the window assigned to it is focused and the overlay closes; an
      unassigned character is ignored. Otherwise "Escape" closes the overlay
      without focusing, and every other key is ignored. The key name of a real
      key press is never empty; the program panics on an empty one. */
  function HandleKeypress(assignments: map<char, Address>, key: string, labels: string): (r: KeyOutcome)
    requires key != ""
    ensures r.focus.Some? ==> r.terminate && r.focus.value in assignments.Values
    ensures r.terminate && r.focus.None? ==> key == "Escape"
  {
    if Contains(labels, key) then
      var c := key[0];
      if c in assignments then KeyOutcome(true, Some(assignments[c])) else KeyOutcome(false, None)
    else if key == "Escape" then KeyOutcome(true, None)
    else KeyOutcome(false, None)
  }

  /** A one-character key name occurs in the alphabet exactly when the
      character is one of its entries. */
  lemma ContainsSingle(s: string, c: char)
    ensures Contains(s, [c]) <==> c in s
  {
    if c in s {
      var i :| 0 <= i < |s| && s[i] == c;
      assert [c] <= s[i..];
    }
    if Contains(s, [c]) {
      var i :| 0 <= i <= |s| && [c] <= s[i..];
      assert s[i] == c;
    }
  }

  /** The key names that focus a window: those occurring in the alphabet whose
      first character is assigned; the window focused is the one assigned to
      that first character. */
  lemma KeypressFocuses(assignments: map<char, Address>, key: string, labels: string)
    requires key != ""
    ensures var r := HandleKeypress(assignments, key, labels);
      r.focus.Some? <==> Contains(labels, key) && key[0] in assignments
    ensures var r := HandleKeypress(assignments, key, labels);
      r.focus.Some? ==> r.terminate && r.focus.value == assignments[key[0]]
  {
  }

  /** The key names that close the overlay without focusing: "Escape", unless
      "Escape" itself occurs in the alphabet. */
  lemma KeypressCancels(assignments: map<char, Address>, key: string, labels: string)
    requires key != ""
    ensures var r := HandleKeypress(assignments, key, labels);
      r.terminate && r.focus.None? <==> key == "Escape" && !Contains(labels, key)
  {
  }

  /** Every other key is ignored: nothing is focused and the overlay stays. */
  lemma KeypressIgnored(assignments: map<char, Address>, key: string, labels: string)
    requires key != ""
    ensures var r := HandleKeypress(assignments, key, labels);
      !r.terminate <==> (Contains(labels, key) && key[0] !in assignments)
                        || (!Contains(labels, key) && key != "Escape")
    ensures var r := HandleKeypress(assignments, key, labels);
      !r.terminate ==> r.focus.None?
  {
  }
}
