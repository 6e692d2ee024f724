/**
  The message element and `showMessage`: the element's text and class list
  are rewritten in place, and every call schedules a hide 4000 ms later with
  `setTimeout`. No earlier hide is ever cancelled. Time is a parameter: the
  caller says what the clock reads.
*/
module Notice {

  const HideDelay := 4000

  /** Pending hides that have not fired by `now`, in the order they were scheduled. */
  function PendingAfter(dueTimes: seq<int>, now: int): (r: seq<int>)
    ensures forall i | 0 <= i < |r| :: r[i] > now
    ensures forall t :: t in dueTimes && t > now ==> t in r
    ensures forall t :: t in r ==> t in dueTimes
    ensures forall t :: multiset(r)[t] == if t > now then multiset(dueTimes)[t] else 0
  {
    if dueTimes == [] then []
    else
      assert dueTimes == [dueTimes[0]] + dueTimes[1..];
      (if dueTimes[0] > now then [dueTimes[0]] else []) + PendingAfter(dueTimes[1..], now)
  }

  predicate SomeDue(dueTimes: seq<int>, now: int) {
    exists i | 0 <= i < |dueTimes| :: dueTimes[i] <= now
  }

  /** The `#message` element. */
  class MessageElement {
    var text: string
    var classes: set<string>
    /** Due times of the hides `showMessage` scheduled that have not fired yet. */
    var hideTimers: seq<int>

    constructor (text: string, classes: set<string>)
      ensures this.text == text && this.classes == classes && hideTimers == []
    {
      this.text := text;
      this.classes := classes;
      hideTimers := [];
    }

    /**
      `showMessage(text, type)` at time `now`: the class list becomes exactly `message` and
      `kind` (minus `hidden`, which the call removes last), the text is
      replaced, and one more hide is scheduled. Hides due by `now` have already
      fired, on the previous message, and the class reset undoes them; the
      earlier hides not yet due stay pending.
    */
    method ShowMessage(now: int, text: string, kind: string := "info")
      modifies this
      ensures this.text == text
      ensures classes == {"message", kind} - {"hidden"}
      ensures "hidden" !in classes
      ensures kind != "hidden" ==> classes == {"message", kind}
      ensures hideTimers == PendingAfter(old(hideTimers), now) + [now + HideDelay]
    {
      hideTimers := PendingAfter(hideTimers, now);
      classes := {};
      classes := classes + {"message", kind};
      this.text := text;
      classes := classes - {"hidden"};
      hideTimers := hideTimers + [now + HideDelay];
    }

    /**
      The clock reaches `now`: each scheduled hide that is due runs
      `classList.add("hidden")`, whichever message it was scheduled for.
    */
    method Elapse(now: int)
      modifies this
      ensures text == old(text)
      ensures classes == if SomeDue(old(hideTimers), now) then old(classes) + {"hidden"} else old(classes)
      ensures hideTimers == PendingAfter(old(hideTimers), now)
    {
      if SomeDue(hideTimers, now) {
        classes := classes + {"hidden"};
      }
      hideTimers := PendingAfter(hideTimers, now);
    }
  }

  /**
    Two messages 1000 ms apart: when the first message's hide fires, it hides
    the second one, 3000 ms after the second was shown, while the second's own
    hide is still pending. The newest message does not always stay up for its
    full 4000 ms.
  */
  method StaleHideHidesNewerMessage(start: int) returns (shown: string, hidden: bool, pending: nat)
    ensures shown == "second" && hidden && pending == 1
  {
    var m := new MessageElement("", {"hidden"});
    m.ShowMessage(start, "first", "success");
    assert PendingAfter([start + HideDelay], start + 1000) == [start + HideDelay] + PendingAfter([], start + 1000);
    m.ShowMessage(start + 1000, "second", "error");
    var due := m.hideTimers;
    assert due == [start + HideDelay, start + 1000 + HideDelay];
    assert due[0] <= start + HideDelay;
    assert due[1..] == [start + 1000 + HideDelay] && due[1..][1..] == [];
    assert PendingAfter(due[1..], start + HideDelay) == [start + 1000 + HideDelay] + PendingAfter([], start + HideDelay);
    assert PendingAfter(due, start + HideDelay) == [start + 1000 + HideDelay];
    m.Elapse(start + HideDelay);
    shown, hidden, pending := m.text, "hidden" in m.classes, |m.hideTimers|;
  }

  /**
    A message shown after the previous one's hide has fired is not hidden by
    it: the first hide fires at 4000 ms, the second message comes at 5000 ms,
    and at 6000 ms it is still visible with only its own hide pending.
  */
  method LateMessageStaysVisible(start: int) returns (shown: string, hidden: bool, pending: seq<int>)
    ensures shown == "second" && !hidden && pending == [start + 5000 + HideDelay]
  {
    var m := new MessageElement("", {"hidden"});
    m.ShowMessage(start, "first", "success");
    assert PendingAfter([start + HideDelay], start + 5000) == [] + PendingAfter([], start + 5000);
    m.ShowMessage(start + 5000, "second", "error");
    var due := m.hideTimers;
    assert due == [start + 5000 + HideDelay];
    assert !SomeDue(due, start + 6000);
    assert PendingAfter(due, start + 6000) == [start + 5000 + HideDelay] + PendingAfter([], start + 6000);
    m.Elapse(start + 6000);
    shown, hidden, pending := m.text, "hidden" in m.classes, m.hideTimers;
  }
}
