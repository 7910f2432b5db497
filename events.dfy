/**
 * How the event methods (`on`, `off`, `one`, `oneEach`) read their type argument: a list
 * of types separated by spaces is handed to the wrapped method one type at a time.
 */
module Events {
  import opened Seqs
  import opened Strings

  /**
   * The types `eventMethod` passes on, in order: the pieces between spaces when the first
   * space is past index 0, the whole argument otherwise.
   */
  function EventTypes(t: string): (r: seq<string>)
    ensures |r| >= 1
  {
    if IndexOf(t, " ") > 0 then Split(t, ' ') else [t]
  }

  /** The types passed on, joined by spaces, give the argument back. */
  lemma EventTypesJoin(t: string)
    ensures Join(EventTypes(t), " ") == t
  {
    if IndexOf(t, " ") > 0 {
      JoinSplit(t, ' ');
    }
  }

  /** A split list holds no spaces. */
  lemma EventTypesPlain(t: string)
    requires IndexOf(t, " ") > 0
    ensures forall k :: 0 <= k < |EventTypes(t)| ==> ' ' !in EventTypes(t)[k]
  {
  }

  /** The argument is split into several types exactly when its first space is past index 0. */
  lemma EventTypesSeveral(t: string)
    ensures |EventTypes(t)| > 1 <==> IndexOf(t, " ") > 0
  {
    var i := IndexOf(t, " ");
    if i > 0 {
      assert t[i..i + 1] == " ";
      assert t[i] == ' ';
      var p := Position(t, ' ');
      assert p < |t|;
      assert Split(t, ' ') == [t[..p]] + Split(t[p + 1..], ' ');
    }
  }
}
