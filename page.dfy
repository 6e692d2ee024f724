/**
  The state the page's `DOMContentLoaded` handler sets up and its handlers
  mutate: the name-indexed table `cardsByName`, the cards and options appended
  while rendering, the loading message, and the message element. Each
  handler's work after its response arrives is one atomic step; the response
  itself is an input (`Outcome`), since the network is not modelled.
*/
module Page {
  import opened Wrappers
  import opened JsText
  import opened Capacity
  import opened Roster
  import opened Notice

  /** The `detail` and `message` fields of a JSON response body; "" stands for a missing one. */
  datatype Body = Body(detail: string, message: string)

  /**
    How a request ended: a response with an ok status, a response with an
    error status, or an exception (network failure, unreadable body) with its message.
  */
  datatype Outcome = Ok(body: Body) | Rejected(body: Body) | Thrown(error: string)

  /** What `loadActivities` got: the activities in key order, or a failure of any kind. */
  datatype LoadOutcome = Loaded(activities: seq<(string, Activity)>) | LoadFailed

  const ValidationMessage := "Please provide email and choose an activity."
  const LoadFailedMessage := "Could not load activities."
  const SignupSucceeded := "Signed up successfully."
  const UnregisterSucceeded := "Unregistered successfully."

  /**
    The text of a failed request's notification. An error response throws
    `new Error(body.detail || body.message || responseFallback)` and the catch
    block shows `err.message || catchFallback`; an exception's own message is
    shown unless it is empty.
  */
  function FailureText(outcome: Outcome, responseFallback: string, catchFallback: string): (r: string)
    requires !outcome.Ok?
    requires responseFallback != "" && catchFallback != ""
    ensures r != ""
    ensures outcome.Rejected? && outcome.body.detail != "" ==> r == outcome.body.detail
    ensures outcome.Rejected? && outcome.body.detail == "" && outcome.body.message != "" ==> r == outcome.body.message
    ensures outcome.Rejected? && outcome.body.detail == "" && outcome.body.message == "" ==> r == responseFallback
    ensures outcome.Thrown? && outcome.error != "" ==> r == outcome.error
    ensures outcome.Thrown? && outcome.error == "" ==> r == catchFallback
  {
    match outcome
    case Rejected(body) => Or(Or(Or(body.detail, body.message), responseFallback), catchFallback)
    case Thrown(error) => Or(error, catchFallback)
  }

  /** The keys of the activities, in the order `Object.keys` gives them. */
  function Names(activities: seq<(string, Activity)>): (r: seq<string>)
    ensures |r| == |activities|
  {
    if activities == [] then [] else Names(activities[..|activities| - 1]) + [activities[|activities| - 1].0]
  }

  lemma NamesOfLongerPrefix(activities: seq<(string, Activity)>, k: nat)
    requires k < |activities|
    ensures Names(activities[..k + 1]) == Names(activities[..k]) + [activities[k].0]
  {
    assert activities[..k + 1][..k] == activities[..k];
  }

  /** Appending the next name to a list that holds the names so far gives the names one further. */
  lemma AppendedName(start: seq<string>, current: seq<string>, activities: seq<(string, Activity)>, k: nat)
    requires k < |activities| && current == start + Names(activities[..k])
    ensures current + [activities[k].0] == start + Names(activities[..k + 1])
  {
    NamesOfLongerPrefix(activities, k);
  }

  /** An object's keys are distinct. */
  predicate DistinctNames(activities: seq<(string, Activity)>) {
    forall i, j | 0 <= i < j < |activities| :: activities[i].0 != activities[j].0
  }

  /** A name is among the keys exactly when some activity carries it. */
  lemma {:induction false} NamesHas(activities: seq<(string, Activity)>, name: string)
    ensures name in Names(activities) <==> exists i | 0 <= i < |activities| :: activities[i].0 == name
  {
    if activities != [] {
      var init := activities[..|activities| - 1];
      NamesHas(init, name);
      if exists i | 0 <= i < |init| :: init[i].0 == name {
        var i :| 0 <= i < |init| && init[i].0 == name;
        assert activities[i].0 == name;
      }
    }
  }

  /** The table has an entry for the activity's name, and it shows the activity. */
  ghost predicate EntryShows(table: map<string, Card>, activity: (string, Activity)) {
    activity.0 in table && CardShows(table[activity.0], activity.0, activity.1)
  }

  /**
    What rendering `activities` did to the table `before`, giving `after`:
    each activity's entry shows it (`Roster.CardShows`), the table gained
    exactly their names, and every other entry is untouched.
  */
  ghost predicate Rendered(before: map<string, Card>, after: map<string, Card>, activities: seq<(string, Activity)>) {
    && after.Keys == before.Keys + (set n | n in Names(activities))
    && (forall i | 0 <= i < |activities| :: EntryShows(after, activities[i]))
    && (forall name | name in before && name !in Names(activities) :: name in after && after[name] == before[name])
  }

  /** One more activity rendered, after the ones before it, keeps `Rendered`. */
  lemma RenderedStep(before: map<string, Card>, mid: map<string, Card>, activities: seq<(string, Activity)>, k: nat, card: Card)
    requires k < |activities| && DistinctNames(activities)
    requires Rendered(before, mid, activities[..k])
    requires CardShows(card, activities[k].0, activities[k].1)
    ensures Rendered(before, mid[activities[k].0 := card], activities[..k + 1])
  {
    var done, next := activities[..k], activities[..k + 1];
    NamesOfLongerPrefix(activities, k);
    RenderedStepKeys(before, mid, Names(done), activities[k].0, card);
    assert forall i | 0 <= i < k :: EntryShows(mid, activities[i]) by {
      forall i | 0 <= i < k ensures EntryShows(mid, activities[i]) {
        assert done[i] == activities[i];
      }
    }
    RenderedStepShows(mid, activities, k, card);
    forall i | 0 <= i < |next| ensures EntryShows(mid[activities[k].0 := card], next[i]) {
      assert next[i] == activities[i];
    }
  }

  /** Registering one more name keeps the key set and leaves the untouched entries as they were. */
  lemma RenderedStepKeys(before: map<string, Card>, mid: map<string, Card>, names: seq<string>, name: string, card: Card)
    requires mid.Keys == before.Keys + (set n | n in names)
    requires forall n | n in before && n !in names :: n in mid && mid[n] == before[n]
    ensures mid[name := card].Keys == before.Keys + (set n | n in names + [name])
    ensures forall n | n in before && n !in names + [name] :: n in mid[name := card] && mid[name := card][n] == before[n]
  {
    assert (set n | n in names + [name]) == (set n | n in names) + {name};
  }

  /** The entries rendered so far still show their activities once the next one is registered. */
  lemma RenderedStepShows(mid: map<string, Card>, activities: seq<(string, Activity)>, k: nat, card: Card)
    requires k < |activities| && DistinctNames(activities)
    requires forall i | 0 <= i < k :: EntryShows(mid, activities[i])
    requires CardShows(card, activities[k].0, activities[k].1)
    ensures forall i | 0 <= i <= k :: EntryShows(mid[activities[k].0 := card], activities[i])
  {
    var name := activities[k].0;
    forall i | 0 <= i < k ensures EntryShows(mid[name := card], activities[i]) {
      assert activities[i].0 != name;
    }
  }

  /** Nothing rendered yet: the table is as it was. */
  lemma RenderedNothing(table: map<string, Card>, activities: seq<(string, Activity)>)
    ensures Rendered(table, table, activities[..0])
  {
    assert Names(activities[..0]) == [];
  }

  /** Rendered entries satisfy both invariants, so rendering keeps a consistent table consistent. */
  lemma RenderedConsistent(before: map<string, Card>, after: map<string, Card>, activities: seq<(string, Activity)>)
    requires Rendered(before, after, activities) && TableConsistent(before)
    ensures TableConsistent(after)
  {
    forall name | name in after ensures Roster.Consistent(after[name]) {
      NamesHas(activities, name);
      if name in Names(activities) {
        var i :| 0 <= i < |activities| && activities[i].0 == name;
        assert EntryShows(after, activities[i]);
        RenderedCardConsistent(after[name], name, activities[i].1);
      } else {
        assert name !in (set n | n in Names(activities));
        assert name in before;
      }
    }
  }

  /**
    A list's participant rows were created for `name` (a row is only ever
    appended to its own activity's list) and before the counter reached `bound`.
  */
  ghost predicate OwnedRows(rows: seq<Row>, name: string, bound: nat) {
    forall r | r in rows && r.Participant? :: r.activity == name && r.id < bound
  }

  /**
    One entry of the table, under the key `name`: its participant rows were
    created for `name` before the counter reached `bound`, it holds no node
    twice, and its list holds the placeholder alone or participant rows only.
  */
  ghost predicate EntryValid(card: Card, name: string, bound: nat) {
    OwnedRows(card.rows, name, bound) && DistinctIds(card.rows) && WellFormedRows(card.rows)
  }

  /** Every entry of the table is valid under its own key. */
  ghost predicate TableValid(table: map<string, Card>, bound: nat) {
    forall name | name in table :: EntryValid(table[name], name, bound)
  }

  /**
    In a valid table a participant node sits in at most one place: one list,
    one position.
  */
  lemma RowsUnique(table: map<string, Card>, bound: nat)
    requires TableValid(table, bound)
    ensures forall n1, n2, i, j | n1 in table && n2 in table && 0 <= i < |table[n1].rows| && 0 <= j < |table[n2].rows|
                                 && table[n1].rows[i].Participant? && table[n1].rows[i] == table[n2].rows[j] :: n1 == n2 && i == j
  {
    forall n1, n2, i, j | n1 in table && n2 in table && 0 <= i < |table[n1].rows| && 0 <= j < |table[n2].rows|
                          && table[n1].rows[i].Participant? && table[n1].rows[i] == table[n2].rows[j]
      ensures n1 == n2 && i == j
    {
      assert EntryValid(table[n1], n1, bound) && EntryValid(table[n2], n2, bound);
      assert table[n1].rows[i] in table[n1].rows && table[n2].rows[j] in table[n2].rows;
    }
  }

  /**
    After an unregister of `row` on a valid table no list holds it: its own
    list lost it, and no other list ever had it.
  */
  lemma UnregisteredGone(table: map<string, Card>, bound: nat, row: Row)
    requires TableValid(table, bound) && row.Participant?
    ensures var after := if row.activity in table then table[row.activity := Unregistered(table[row.activity], row)] else table;
      forall n | n in after :: row !in after[n].rows
  {
    if row.activity in table {
      assert EntryValid(table[row.activity], row.activity, bound);
      UnregisteredDistinct(table[row.activity], row);
    }
    forall n | n in table && n != row.activity ensures row !in table[n].rows {
      assert EntryValid(table[n], n, bound);
    }
  }

  /**
    The table after a signup of `row` into the list of `name`: the entry, when
    there is one, is patched with `SignedUp`.
  */
  function SignupEntry(table: map<string, Card>, name: string, row: Row): map<string, Card> {
    if name in table then table[name := SignedUp(table[name], row)] else table
  }

  /** A signup of a row created for `name` at the counter's value keeps the table valid. */
  lemma SignupEntryValid(table: map<string, Card>, bound: nat, name: string, row: Row)
    requires TableValid(table, bound) && name in table
    requires row.Participant? && row.activity == name && row.id == bound
    ensures TableValid(SignupEntry(table, name, row), bound + 1)
  {
    SignedUpValid(table[name], row, name, bound);
    TableValidUpdate(table, bound, bound + 1, name, SignedUp(table[name], row));
  }

  /**
    The table after an unregister of `row`: the entry of the row's activity,
    when there is one, is patched with `Unregistered`.
  */
  function UnregisterEntry(table: map<string, Card>, row: Row): map<string, Card>
    requires row.Participant?
  {
    if row.activity in table then table[row.activity := Unregistered(table[row.activity], row)] else table
  }

  /** An unregister keeps a valid table valid, and afterwards no list holds the row. */
  lemma UnregisterEntryValid(table: map<string, Card>, bound: nat, row: Row)
    requires TableValid(table, bound) && row.Participant?
    ensures TableValid(UnregisterEntry(table, row), bound)
    ensures forall n | n in UnregisterEntry(table, row) :: row !in UnregisterEntry(table, row)[n].rows
  {
    UnregisteredGone(table, bound, row);
    if row.activity in table {
      UnregisteredValid(table[row.activity], row, row.activity, bound);
      TableValidUpdate(table, bound, bound, row.activity, Unregistered(table[row.activity], row));
    }
  }

  /** Every entry of the table keeps both invariants of `Roster.Consistent`. */
  ghost predicate TableConsistent(table: map<string, Card>) {
    forall name {:trigger Roster.Consistent(table[name])} | name in table :: Roster.Consistent(table[name])
  }

  lemma TableValidUpdate(table: map<string, Card>, bound: nat, bound': nat, name: string, card: Card)
    requires TableValid(table, bound) && bound <= bound'
    requires EntryValid(card, name, bound')
    ensures TableValid(table[name := card], bound')
  {
    forall n | n in table && n != name ensures EntryValid(table[n], n, bound') {
      assert EntryValid(table[n], n, bound);
    }
  }

  lemma TableConsistentUpdate(table: map<string, Card>, name: string, card: Card)
    requires TableConsistent(table) && Roster.Consistent(card)
    ensures TableConsistent(table[name := card])
  {
  }

  /** A signup's new row, created for this list and fresh, keeps the entry valid. */
  lemma SignedUpValid(card: Card, row: Row, name: string, bound: nat)
    requires EntryValid(card, name, bound)
    requires row.Participant? && row.activity == name && row.id == bound
    ensures EntryValid(SignedUp(card, row), name, bound + 1)
  {
    SignedUpOwned(card, row, name, bound);
    SignedUpDistinct(card, row);
    SignupKeepsShape(card, row);
  }

  /** An unregister, of an attached or a detached row, keeps the entry valid. */
  lemma UnregisteredValid(card: Card, row: Row, name: string, bound: nat)
    requires EntryValid(card, name, bound) && row.Participant?
    ensures EntryValid(Unregistered(card, row), name, bound)
  {
    UnregisteredOwned(card, row, name, bound);
    UnregisteredDistinct(card, row);
    UnregisteredKeepsShape(card, row);
  }

  /** A signup's new row, created for this list and fresh, keeps the list owned. */
  lemma SignedUpOwned(card: Card, row: Row, name: string, bound: nat)
    requires OwnedRows(card.rows, name, bound)
    requires row.Participant? && row.activity == name && row.id == bound
    ensures OwnedRows(SignedUp(card, row).rows, name, bound + 1)
  {
    var rest := RemoveFirstPlaceholder(card.rows);
    RemoveFirstPlaceholderEffect(card.rows);
    forall r | r in rest && r.Participant? ensures r.activity == name && r.id < bound + 1 {
      if Placeholder in card.rows {
        assert r in multiset(rest);
      }
      assert r in card.rows;
    }
  }

  /** Removing a row keeps the list owned. */
  lemma UnregisteredOwned(card: Card, row: Row, name: string, bound: nat)
    requires OwnedRows(card.rows, name, bound)
    ensures OwnedRows(Unregistered(card, row).rows, name, bound)
  {
    RemoveNodeMembers(card.rows, row);
  }

  class ActivitiesPage {
    var cardsByName: map<string, Card>
    /** Names of the cards appended to the activities list, in order. */
    var cardOrder: seq<string>
    /** Values of the options appended to the activity selector, in order. */
    var options: seq<string>
    /** The activities list still shows its loading message. */
    var loading: bool
    /** Identity of the next participant row to be created. */
    var nextRowId: nat
    const messageEl: MessageElement

    /**
      Every list holds rows created for its own activity before the counter's
      current value, no list holds the same node twice, so a participant node
      sits in at most one place (`RowsUnique`), and every list holds the
      placeholder alone or participant rows only.
    */
    ghost predicate Valid()
      reads this
    {
      TableValid(cardsByName, nextRowId)
    }

    ghost predicate Consistent()
      reads this
    {
      TableConsistent(cardsByName)
    }

    constructor (messageEl: MessageElement)
      ensures Valid() && Consistent()
      ensures cardsByName == map[] && cardOrder == [] && options == []
      ensures loading && nextRowId == 0 && this.messageEl == messageEl
    {
      cardsByName := map[];
      cardOrder := [];
      options := [];
      loading := true;
      nextRowId := 0;
      this.messageEl := messageEl;
    }

    /** `clearLoading`: the loading message leaves the activities list. */
    method ClearLoading()
      modifies this`loading
      ensures !loading
    {
      loading := false;
    }

    /** `createParticipantLi(email, activityName)`: a new row node, bound to that email and activity. */
    method CreateParticipantRow(email: string, activity: string) returns (row: Row)
      modifies this`nextRowId
      ensures row == Participant(old(nextRowId), email, activity)
      ensures nextRowId == old(nextRowId) + 1
    {
      row := Participant(nextRowId, email, activity);
      nextRowId := nextRowId + 1;
    }

    /**
      The participant list of one card: a new row per email, in order, or the
      placeholder alone when there are no participants.
    */
    method RenderRoster(name: string, participants: seq<string>) returns (rows: seq<Row>)
      modifies this`nextRowId
      ensures RosterShows(rows, name, participants)
      ensures nextRowId == old(nextRowId) + |participants|
      ensures forall r | r in rows && r.Participant? :: r.activity == name && old(nextRowId) <= r.id < nextRowId
      ensures DistinctIds(rows)
    {
      if |participants| > 0 {
        rows := [];
        for i := 0 to |participants|
          invariant nextRowId == old(nextRowId) + i
          invariant |rows| == i
          invariant forall j | 0 <= j < i :: rows[j] == Participant(old(nextRowId) + j, participants[j], name)
        {
          var row := CreateParticipantRow(participants[i], name);
          rows := rows + [row];
        }
      } else {
        rows := [Placeholder];
      }
    }

    /**
      The page after the first `k` activities of a render that started from
      `table0`, `order0` and `options0`: their cards and options appended in
      order, their entries registered.
    */
    ghost predicate RenderedUpTo(table0: map<string, Card>, order0: seq<string>, options0: seq<string>,
                                 activities: seq<(string, Activity)>, k: nat)
      requires k <= |activities|
      reads this
    {
      && cardOrder == order0 + Names(activities[..k])
      && options == options0 + Names(activities[..k])
      && Rendered(table0, cardsByName, activities[..k])
    }

    /**
      The `k`-th turn of `renderActivities`' loop: the card for the activity,
      with its roster and capacity line, is appended and registered in
      `cardsByName`, and its name becomes an option of the selector.
    */
    method RenderNext(ghost table0: map<string, Card>, ghost order0: seq<string>, ghost options0: seq<string>,
                      activities: seq<(string, Activity)>, k: nat)
      requires Valid() && DistinctNames(activities) && k < |activities|
      requires RenderedUpTo(table0, order0, options0, activities, k)
      modifies this`cardsByName, this`nextRowId, this`cardOrder, this`options
      ensures Valid() && RenderedUpTo(table0, order0, options0, activities, k + 1)
    {
      var (name, data) := activities[k];
      var before := nextRowId;
      var rows := RenderRoster(name, data.participants);
      var card := Card(rows, FormatCapacity(|data.participants|, data.maxParticipants), NatToString(data.maxParticipants));
      TableValidUpdate(cardsByName, before, nextRowId, name, card);
      RenderedStep(table0, cardsByName, activities, k, card);
      AppendedName(order0, cardOrder, activities, k);
      AppendedName(options0, options, activities, k);
      cardOrder := cardOrder + [name];
      cardsByName := cardsByName[name := card];
      options := options + [name];
    }

    /**
      `renderActivities`: clear the loading message, then for each activity in
      key order append its card, register it in `cardsByName` and append its
      option to the selector.
    */
    method RenderActivities(activities: seq<(string, Activity)>)
      requires Valid() && DistinctNames(activities)
      modifies this
      ensures Valid() && !loading
      ensures cardOrder == old(cardOrder) + Names(activities)
      ensures options == old(options) + Names(activities)
      ensures Rendered(old(cardsByName), cardsByName, activities)
      ensures old(Consistent()) ==> Consistent()
    {
      ClearLoading();
      ghost var table0, order0, options0 := cardsByName, cardOrder, options;
      RenderedNothing(table0, activities);
      for k := 0 to |activities|
        invariant Valid() && !loading
        invariant RenderedUpTo(table0, order0, options0, activities, k)
      {
        RenderNext(table0, order0, options0, activities, k);
      }
      assert activities[..|activities|] == activities;
      if old(Consistent()) {
        RenderedConsistent(table0, cardsByName, activities);
      }
    }

    /**
      `loadActivities`, once the request has ended: render what arrived, or
      clear the loading message and report the failure.
    */
    method LoadActivities(now: int, outcome: LoadOutcome)
      requires Valid()
      requires outcome.Loaded? ==> DistinctNames(outcome.activities)
      modifies this, messageEl
      ensures Valid() && !loading
      ensures outcome.Loaded? ==>
                && cardOrder == old(cardOrder) + Names(outcome.activities)
                && options == old(options) + Names(outcome.activities)
                && Rendered(old(cardsByName), cardsByName, outcome.activities)
                && unchanged(messageEl)
      ensures outcome.LoadFailed? ==>
                && cardsByName == old(cardsByName) && options == old(options) && cardOrder == old(cardOrder)
                && nextRowId == old(nextRowId)
                && messageEl.text == LoadFailedMessage && messageEl.classes == {"message", "error"}
                && messageEl.hideTimers == PendingAfter(old(messageEl.hideTimers), now) + [now + HideDelay]
      ensures old(Consistent()) ==> Consistent()
    {
      match outcome
      case Loaded(activities) =>
        RenderActivities(activities);
      case LoadFailed =>
        ClearLoading();
        messageEl.ShowMessage(now, LoadFailedMessage, "error");
    }

    /**
      The signup handler's update of the page after a successful request:
      when the page has an entry for the activity, a new row for the email
      joins its list and the entry is patched with `SignedUp`.
    */
    method PatchSignup(email: string, activityName: string)
      requires Valid()
      modifies this`cardsByName, this`nextRowId
      ensures Valid()
      ensures activityName in old(cardsByName) ==>
                var row := Participant(old(nextRowId), email, activityName);
                cardsByName == old(cardsByName)[activityName := SignedUp(old(cardsByName)[activityName], row)]
      ensures activityName !in old(cardsByName) ==> cardsByName == old(cardsByName)
      ensures old(Consistent()) ==> Consistent()
    {
      if activityName in cardsByName {
        var row := CreateParticipantRow(email, activityName);
        SignupEntryValid(cardsByName, row.id, activityName, row);
        if Consistent() {
          SignupKeepsConsistent(cardsByName[activityName], row);
          TableConsistentUpdate(cardsByName, activityName, SignedUp(cardsByName[activityName], row));
        }
        cardsByName := SignupEntry(cardsByName, activityName, row);
      }
    }

    /**
      The signup form's submit handler. An empty trimmed email or an empty
      activity name stops it before any request, with an error message.
      Otherwise it requests the signup (returned as `request`) and, once the
      request has ended, runs `SignupResponse`.
    */
    /**
      The signup handler's work once its request has ended: on success it runs
      `PatchSignup` and shows the server's message or a default; on failure it
      changes no entry and shows the error text.
    */
    method SignupResponse(now: int, email: string, activityName: string, outcome: Outcome)
      requires Valid()
      modifies this`cardsByName, this`nextRowId, messageEl
      ensures Valid()
      ensures messageEl.hideTimers == PendingAfter(old(messageEl.hideTimers), now) + [now + HideDelay]
      ensures outcome.Ok? ==>
                messageEl.text == Or(outcome.body.message, SignupSucceeded) && messageEl.classes == {"message", "success"}
      ensures !outcome.Ok? ==>
                messageEl.text == FailureText(outcome, "Signup failed", "Signup failed.")
                && messageEl.classes == {"message", "error"}
      ensures outcome.Ok? && activityName in old(cardsByName) ==>
                var row := Participant(old(nextRowId), email, activityName);
                cardsByName == old(cardsByName)[activityName := SignedUp(old(cardsByName)[activityName], row)]
      ensures !(outcome.Ok? && activityName in old(cardsByName)) ==> cardsByName == old(cardsByName)
      ensures old(Consistent()) ==> Consistent()
    {
      if outcome.Ok? {
        PatchSignup(email, activityName);
        messageEl.ShowMessage(now, Or(outcome.body.message, SignupSucceeded), "success");
      } else {
        messageEl.ShowMessage(now, FailureText(outcome, "Signup failed", "Signup failed."), "error");
      }
    }

    method Submit(now: int, emailValue: string, activityName: string, outcome: Outcome)
      returns (request: Option<(string, string)>)
      requires Valid()
      modifies this`cardsByName, this`nextRowId, messageEl
      ensures Valid()
      ensures cardOrder == old(cardOrder) && options == old(options) && loading == old(loading)
      ensures request.None? <==> Trim(emailValue) == "" || activityName == ""
      ensures request.Some? ==> request.value == (activityName, Trim(emailValue))
      ensures messageEl.hideTimers == PendingAfter(old(messageEl.hideTimers), now) + [now + HideDelay]
      ensures request.None? ==>
                messageEl.text == ValidationMessage && messageEl.classes == {"message", "error"}
      ensures request.Some? && outcome.Ok? ==>
                messageEl.text == Or(outcome.body.message, SignupSucceeded) && messageEl.classes == {"message", "success"}
      ensures request.Some? && !outcome.Ok? ==>
                messageEl.text == FailureText(outcome, "Signup failed", "Signup failed.")
                && messageEl.classes == {"message", "error"}
      ensures request.Some? && outcome.Ok? && activityName in old(cardsByName) ==>
                var row := Participant(old(nextRowId), Trim(emailValue), activityName);
                cardsByName == old(cardsByName)[activityName := SignedUp(old(cardsByName)[activityName], row)]
      ensures !(request.Some? && outcome.Ok? && activityName in old(cardsByName)) ==>
                cardsByName == old(cardsByName)
      ensures old(Consistent()) ==> Consistent()
    {
      var email := Trim(emailValue);
      if email == "" || activityName == "" {
        messageEl.ShowMessage(now, ValidationMessage, "error");
        return None;
      }
      request := Some((activityName, email));
      SignupResponse(now, email, activityName, outcome);
    }

    /**
      The unregister handler's update of the page after a successful request:
      the entry of the row's activity, when the page has one, is patched with
      `Unregistered`. A row is only ever attached to its own activity's list,
      so no other list can hold it, and afterwards no list does.
    */
    method PatchUnregister(row: Row)
      requires Valid() && row.Participant?
      modifies this`cardsByName
      ensures Valid()
      ensures forall n | n in cardsByName :: row !in cardsByName[n].rows
      ensures row.activity in old(cardsByName) ==>
                cardsByName == old(cardsByName)[row.activity := Unregistered(old(cardsByName)[row.activity], row)]
      ensures row.activity !in old(cardsByName) ==> cardsByName == old(cardsByName)
      ensures old(Consistent()) && row.activity in old(cardsByName) && row in old(cardsByName)[row.activity].rows ==>
                Consistent()
    {
      UnregisterEntryValid(cardsByName, nextRowId, row);
      if Consistent() && row.activity in cardsByName && row in cardsByName[row.activity].rows {
        UnregisterAttachedKeepsConsistent(cardsByName[row.activity], row);
        TableConsistentUpdate(cardsByName, row.activity, Unregistered(cardsByName[row.activity], row));
      }
      cardsByName := UnregisterEntry(cardsByName, row);
    }

    /**
      The click handler of a participant row's delete button. It requests the
      removal of the row's email from the row's activity (returned as
      `request`) and, once the request has ended: on success runs
      `PatchUnregister` and shows the server's message or a default; on
      failure changes no entry and shows the error text.
    */
    method ClickDelete(now: int, row: Row, outcome: Outcome) returns (request: (string, string))
      requires Valid() && row.Participant?
      modifies this, messageEl
      ensures Valid()
      ensures cardOrder == old(cardOrder) && options == old(options) && loading == old(loading)
      ensures nextRowId == old(nextRowId)
      ensures request == (row.activity, row.email)
      ensures messageEl.hideTimers == PendingAfter(old(messageEl.hideTimers), now) + [now + HideDelay]
      ensures outcome.Ok? ==>
                messageEl.text == Or(outcome.body.message, UnregisterSucceeded) && messageEl.classes == {"message", "success"}
      ensures !outcome.Ok? ==>
                messageEl.text == FailureText(outcome, "Delete failed", "Could not unregister.")
                && messageEl.classes == {"message", "error"}
      ensures outcome.Ok? && row.activity in old(cardsByName) ==>
                cardsByName == old(cardsByName)[row.activity := Unregistered(old(cardsByName)[row.activity], row)]
      ensures outcome.Ok? ==> forall n | n in cardsByName :: row !in cardsByName[n].rows
      ensures !(outcome.Ok? && row.activity in old(cardsByName)) ==> cardsByName == old(cardsByName)
      ensures old(Consistent()) && row.activity in old(cardsByName) && row in old(cardsByName)[row.activity].rows ==>
                Consistent()
    {
      request := (row.activity, row.email);
      if outcome.Ok? {
        PatchUnregister(row);
        messageEl.ShowMessage(now, Or(outcome.body.message, UnregisterSucceeded), "success");
      } else {
        messageEl.ShowMessage(now, FailureText(outcome, "Delete failed", "Could not unregister."), "error");
      }
    }
  }

  /** A render of a single activity leaves an entry for it that shows it. */
  lemma RenderedSingle(before: map<string, Card>, after: map<string, Card>, name: string, activity: Activity)
    requires Rendered(before, after, [(name, activity)])
    ensures name in after && CardShows(after[name], name, activity)
  {
    assert EntryShows(after, [(name, activity)][0]);
  }

  lemma ChessClubTexts()
    ensures NatToString(10) == "10"
    ensures FormatCapacity(1, 10) == "Capacity: 1/10"
    ensures FormatCapacity(0, 10) == "Capacity: 0/10"
  {
    assert NatToString(1) == "1";
    assert NatToString(0) == "0";
  }

  /** A fresh page that has rendered a Chess Club with one participant and a maximum of 10. */
  method LoadChessClub() returns (page: ActivitiesPage, first: Row)
    ensures fresh(page) && fresh(page.messageEl) && page.Valid()
    ensures "Chess Club" in page.cardsByName
    ensures page.cardsByName["Chess Club"] == Card([first], "Capacity: 1/10", "10")
    ensures first.Participant? && first.activity == "Chess Club" && first.email == "a@x.com"
  {
    var m := new MessageElement("", {"hidden"});
    page := new ActivitiesPage(m);
    var activity := Activity("Students meet to play chess", "Fridays", 10, ["a@x.com"]);
    ChessClubTexts();
    page.LoadActivities(0, Loaded([("Chess Club", activity)]));
    RenderedSingle(map[], page.cardsByName, "Chess Club", activity);
    first := page.cardsByName["Chess Club"].rows[0];
  }

  /** Deleting the only participant's row of the Chess Club card, with the server agreeing. */
  method DeleteOnlyParticipant(page: ActivitiesPage, first: Row)
    requires page.Valid() && "Chess Club" in page.cardsByName
    requires page.cardsByName["Chess Club"] == Card([first], "Capacity: 1/10", "10")
    requires first.Participant? && first.activity == "Chess Club"
    modifies page, page.messageEl
    ensures page.Valid() && "Chess Club" in page.cardsByName
    ensures page.cardsByName["Chess Club"] == Card([Placeholder], "Capacity: 0/10", "10")
  {
    ChessClubTexts();
    LastParticipantLeaves(page.cardsByName["Chess Club"], first, 10);
    var _ := page.ClickDelete(1000, first, Ok(Body("", "")));
  }

  /** Signing `b@x.com` up for the Chess Club while its card shows the placeholder, with the server agreeing. */
  method SignUpIntoEmptyClub(page: ActivitiesPage) returns (row: Row)
    requires page.Valid() && "Chess Club" in page.cardsByName
    requires page.cardsByName["Chess Club"] == Card([Placeholder], "Capacity: 0/10", "10")
    modifies page, page.messageEl
    ensures "Chess Club" in page.cardsByName
    ensures page.cardsByName["Chess Club"] == Card([row], "Capacity: 1/10", "10")
    ensures row.Participant? && row.email == "b@x.com"
  {
    ChessClubTexts();
    TrimUnpadded("b@x.com");
    row := Participant(page.nextRowId, "b@x.com", "Chess Club");
    FirstParticipantJoins(page.cardsByName["Chess Club"], row, 10);
    var _ := page.Submit(2000, "b@x.com", "Chess Club", Ok(Body("", "")));
  }

  /**
    The walk-through of a Chess Club with one participant, maximum 10: the
    card first reads `Capacity: 1/10`; deleting that participant's row gives
    `Capacity: 0/10` and the placeholder; signing up `b@x.com` gives
    `Capacity: 1/10` and one row, for `b@x.com`.
  */
  method ChessClubWalkthrough() returns (loaded: string, removed: string, rowsRemoved: seq<Row>, signedUp: string, rowsSignedUp: seq<Row>)
    ensures loaded == "Capacity: 1/10" && removed == "Capacity: 0/10" && signedUp == "Capacity: 1/10"
    ensures rowsRemoved == [Placeholder]
    ensures |rowsSignedUp| == 1 && rowsSignedUp[0].Participant? && rowsSignedUp[0].email == "b@x.com"
  {
    var page, first := LoadChessClub();
    loaded := page.cardsByName["Chess Club"].capacityText;
    DeleteOnlyParticipant(page, first);
    removed, rowsRemoved := page.cardsByName["Chess Club"].capacityText, page.cardsByName["Chess Club"].rows;
    var _ := SignUpIntoEmptyClub(page);
    signedUp, rowsSignedUp := page.cardsByName["Chess Club"].capacityText, page.cardsByName["Chess Club"].rows;
  }
}
