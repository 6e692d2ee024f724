/**
  One entry of the page's name-indexed table, as values: the rows of the
  activity's participant list, the text of its capacity element and the
  card's `data-max` attribute. The signup and unregister handlers' patches of
  one entry are the functions `SignedUp` and `Unregistered`.
*/
module Roster {
  import opened Wrappers
  import opened JsText
  import opened Capacity

  /**
    A row (`<li>`) of a participant list. A participant row is a DOM node of its
    own: `id` stands for that node's identity; `email` and `activity` are what
    its delete button's click handler captured when the row was created.
  */
  datatype Row = Participant(id: nat, email: string, activity: string) | Placeholder

  /** One activity as the server sends it. */
  datatype Activity = Activity(description: string, schedule: string, maxParticipants: nat, participants: seq<string>)

  /** The page's view of one activity. */
  datatype Card = Card(rows: seq<Row>, capacityText: string, storedMax: string)

  const PlaceholderText := "No participants yet."
  const DeleteLabel := "×"

  /** `li.textContent`: a participant row holds the mail link's text followed by the delete button's label. */
  function RowText(row: Row): string {
    match row
    case Participant(_, email, _) => email + DeleteLabel
    case Placeholder => PlaceholderText
  }

  /**
    The page tells the placeholder apart by comparing text. No participant row
    can pass for it: its text ends with the button label `×`, the
    placeholder's with a full stop.
  */
  function IsPlaceholderRow(row: Row): (b: bool)
    ensures b <==> row.Placeholder?
  {
    var t := RowText(row);
    assert row.Participant? ==> t[|t| - 1] == '×';
    t == PlaceholderText
  }

  /**
    `Array.from(ul.children).find(li => li.textContent === PlaceholderText)`, as
    an index: by `IsPlaceholderRow`, the first placeholder row.
  */
  function FirstPlaceholder(rows: seq<Row>): (r: Option<nat>)
    ensures r.Some? ==> r.value < |rows| && rows[r.value] == Placeholder
                        && forall j | 0 <= j < r.value :: rows[j] != Placeholder
    ensures r.None? ==> Placeholder !in rows
  {
    if rows == [] then None
    else if IsPlaceholderRow(rows[0]) then Some(0)
    else
      var tail := rows[1..];
      assert forall j | 0 <= j < |tail| :: tail[j] == rows[j + 1];
      match FirstPlaceholder(tail)
      case None => None
      case Some(k) => Some(k + 1)
  }

  /** `placeholder.remove()` on the first placeholder, when there is one. */
  function RemoveFirstPlaceholder(rows: seq<Row>): (r: seq<Row>)
    ensures Placeholder !in rows ==> r == rows
    ensures Placeholder in rows ==> |r| == |rows| - 1
  {
    match FirstPlaceholder(rows)
    case None => rows
    case Some(k) => rows[..k] + rows[k + 1..]
  }

  /** Position of the first occurrence of `row`. */
  function IndexOf(rows: seq<Row>, row: Row): (k: nat)
    requires row in rows
    ensures k < |rows| && rows[k] == row && forall j | 0 <= j < k :: rows[j] != row
  {
    if rows[0] == row then 0
    else
      assert rows == [rows[0]] + rows[1..];
      var k := IndexOf(rows[1..], row);
      assert forall j | 0 < j <= k :: rows[j] == rows[1..][j - 1];
      k + 1
  }

  /**
    `li.remove()`: an attached node leaves the list from where it sits, and
    the other rows keep their order; a detached node stays detached.
  */
  function RemoveNode(rows: seq<Row>, row: Row): (r: seq<Row>)
    ensures row !in rows ==> r == rows
    ensures row in rows ==> |r| == |rows| - 1 && multiset(r) == multiset(rows) - multiset{row}
  {
    if row !in rows then rows
    else
      var k := IndexOf(rows, row);
      assert rows == rows[..k] + [row] + rows[k + 1..];
      rows[..k] + rows[k + 1..]
  }

  /** Removing a node adds no row. */
  lemma RemoveNodeMembers(rows: seq<Row>, row: Row)
    ensures forall x | x in RemoveNode(rows, row) :: x in rows
  {
    if row in rows {
      var k := IndexOf(rows, row);
      forall x | x in rows[..k] + rows[k + 1..] ensures x in rows {
        var i :| 0 <= i < |rows[..k] + rows[k + 1..]| && (rows[..k] + rows[k + 1..])[i] == x;
        if i < k { assert x == rows[i]; } else { assert x == rows[i + 1]; }
      }
    }
  }

  /** The row leaves from its first occurrence, and the rows before and after it keep their order. */
  lemma RemoveNodeKeepsOrder(rows: seq<Row>, row: Row)
    requires row in rows
    ensures exists k | 0 <= k < |rows| :: rows[k] == row && row !in rows[..k] && RemoveNode(rows, row) == rows[..k] + rows[k + 1..]
  {
    var k := IndexOf(rows, row);
    assert row !in rows[..k];
  }

  /** No two participant rows of the list are the same node. */
  predicate DistinctIds(rows: seq<Row>) {
    forall i, j | 0 <= i < j < |rows| && rows[i].Participant? && rows[j].Participant? :: rows[i].id != rows[j].id
  }

  /** Taking one row out of a list of distinct nodes leaves distinct nodes. */
  lemma RemoveAtKeepsDistinct(rows: seq<Row>, k: nat)
    requires k < |rows| && DistinctIds(rows)
    ensures DistinctIds(rows[..k] + rows[k + 1..])
  {
    var r := rows[..k] + rows[k + 1..];
    forall i, j | 0 <= i < j < |r| && r[i].Participant? && r[j].Participant? ensures r[i].id != r[j].id {
      var i' := if i < k then i else i + 1;
      var j' := if j < k then j else j + 1;
      assert r[i] == rows[i'] && r[j] == rows[j'] && i' < j';
    }
  }

  /** A node taken out of a list of distinct nodes is no longer in it, and the rest stay distinct. */
  lemma RemoveNodeDistinct(rows: seq<Row>, row: Row)
    requires DistinctIds(rows) && row.Participant?
    ensures DistinctIds(RemoveNode(rows, row)) && row !in RemoveNode(rows, row)
  {
    if row in rows {
      var k := IndexOf(rows, row);
      var r := rows[..k] + rows[k + 1..];
      RemoveAtKeepsDistinct(rows, k);
      forall i | 0 <= i < |r| ensures r[i] != row {
        var i' := if i < k then i else i + 1;
        assert r[i] == rows[i'] && i' != k;
      }
    }
  }

  /** A row whose node is in no position of a list of distinct nodes keeps them distinct when appended. */
  lemma AppendFreshDistinct(rows: seq<Row>, row: Row)
    requires DistinctIds(rows) && row.Participant?
    requires forall i | 0 <= i < |rows| && rows[i].Participant? :: rows[i].id != row.id
    ensures DistinctIds(rows + [row])
  {
  }

  /** `Array.from(ul.children).filter(li => li.textContent !== PlaceholderText)`. */
  function ParticipantRows(rows: seq<Row>): (r: seq<Row>)
    ensures |r| <= |rows|
    ensures forall i | 0 <= i < |r| :: r[i].Participant?
  {
    if rows == [] then []
    else
      var init, last := rows[..|rows| - 1], rows[|rows| - 1];
      assert rows == init + [last];
      ParticipantRows(init) + (if IsPlaceholderRow(last) then [] else [last])
  }

  lemma {:induction false} ParticipantRowsAppend(a: seq<Row>, b: seq<Row>)
    ensures ParticipantRows(a + b) == ParticipantRows(a) + ParticipantRows(b)
    decreases |b|
  {
    if b == [] {
      assert a + b == a;
    } else {
      var init, last := b[..|b| - 1], b[|b| - 1];
      var tail := if IsPlaceholderRow(last) then [] else [last];
      assert (a + b)[..|a + b| - 1] == a + init;
      assert (a + b)[|a + b| - 1] == last;
      assert ParticipantRows(a + b) == ParticipantRows(a + init) + tail;
      assert ParticipantRows(b) == ParticipantRows(init) + tail;
      ParticipantRowsAppend(a, init);
    }
  }

  /** Every participant row of the list is among the filtered rows, and only those are. */
  lemma {:induction false} ParticipantRowsMembers(rows: seq<Row>, x: Row)
    ensures x in ParticipantRows(rows) <==> x in rows && x.Participant?
  {
    if rows != [] {
      var init, last := rows[..|rows| - 1], rows[|rows| - 1];
      assert rows == init + [last];
      ParticipantRowsMembers(init, x);
    }
  }

  lemma {:induction false} ParticipantRowsOfParticipants(rows: seq<Row>)
    requires forall i | 0 <= i < |rows| :: rows[i].Participant?
    ensures ParticipantRows(rows) == rows
  {
    if rows != [] {
      var init := rows[..|rows| - 1];
      assert rows == init + [rows[|rows| - 1]];
      assert forall i | 0 <= i < |init| :: init[i] == rows[i];
      ParticipantRowsOfParticipants(init);
    }
  }

  /** The displayed maximum: `parseInt(cardEl.dataset.max, 10) || 0`. */
  function MaxOf(card: Card): int {
    ParseIntOrZero(card.storedMax)
  }

  /**
    The shape every list keeps: either the placeholder alone, or one or more
    participant rows and no placeholder.
  */
  predicate WellFormedRows(rows: seq<Row>) {
    rows == [Placeholder] || (rows != [] && forall i | 0 <= i < |rows| :: rows[i].Participant?)
  }

  /**
    The two invariants of an entry: the list holds the placeholder exactly when
    it holds no participant, and the capacity text reads `N/M` with `N` the
    number of participant rows and `M` the stored maximum.
  */
  predicate Consistent(card: Card) {
    WellFormedRows(card.rows)
    && match CapacityNumbers(card.capacityText)
       case None => false
       case Some((current, max)) => current == |ParticipantRows(card.rows)| && max == MaxOf(card)
  }

  /** A well-formed list holds the placeholder if and only if it holds no participant row. */
  lemma PlaceholderIffNoParticipants(rows: seq<Row>)
    requires WellFormedRows(rows)
    ensures Placeholder in rows <==> ParticipantRows(rows) == []
    ensures Placeholder in rows ==> |rows| == 1
  {
    if rows != [Placeholder] {
      ParticipantRowsMembers(rows, rows[0]);
    }
  }

  /**
    The list a render produces for `participants`: one participant row per
    email, in order, each bound to `name`; or the placeholder alone.
  */
  predicate RosterShows(rows: seq<Row>, name: string, participants: seq<string>) {
    if participants == [] then rows == [Placeholder]
    else |rows| == |participants|
         && forall i | 0 <= i < |rows| ::
              rows[i].Participant? && rows[i].email == participants[i] && rows[i].activity == name
  }

  /** The entry a render produces for one activity. */
  predicate CardShows(card: Card, name: string, activity: Activity) {
    RosterShows(card.rows, name, activity.participants)
    && card.capacityText == FormatCapacity(|activity.participants|, activity.maxParticipants)
    && card.storedMax == NatToString(activity.maxParticipants)
  }

  /** Every freshly rendered entry satisfies both invariants. */
  lemma RenderedCardConsistent(card: Card, name: string, activity: Activity)
    requires CardShows(card, name, activity)
    ensures Consistent(card)
    ensures MaxOf(card) == activity.maxParticipants
  {
    ParseIntOfNatToString(activity.maxParticipants);
    CapacityRoundTrip(|activity.participants|, activity.maxParticipants);
    if activity.participants != [] {
      ParticipantRowsOfParticipants(card.rows);
    }
  }

  /**
    The signup handler's patch: drop the first placeholder, append the new
    participant row, and rewrite the capacity from a recount of the list's
    participant rows and the stored maximum.
  */
  function SignedUp(card: Card, row: Row): (r: Card)
    ensures r.storedMax == card.storedMax && r.rows != [] && r.rows[|r.rows| - 1] == row
    ensures |r.rows| == |card.rows| + (if Placeholder in card.rows then 0 else 1)
  {
    var rows := RemoveFirstPlaceholder(card.rows) + [row];
    Card(rows, FormatCapacity(|ParticipantRows(rows)|, MaxOf(card)), card.storedMax)
  }

  /**
    The unregister handler's patch for the clicked row: detach it; when it was
    attached and the list is left empty, add the placeholder; and rewrite the
    capacity text by decrementing the number it shows, attached or not.
  */
  function Unregistered(card: Card, row: Row): (r: Card)
    ensures r.storedMax == card.storedMax
    ensures card.rows != [] ==> r.rows != []
    ensures row !in card.rows ==> r.rows == card.rows
  {
    var rest := RemoveNode(card.rows, row);
    var rows := if row in card.rows && rest == [] then [Placeholder] else rest;
    Card(rows, DecrementCapacity(card.capacityText), card.storedMax)
  }

  /** Dropping the first placeholder keeps the nodes distinct and adds none. */
  lemma RemoveFirstPlaceholderDistinct(rows: seq<Row>)
    requires DistinctIds(rows)
    ensures DistinctIds(RemoveFirstPlaceholder(rows))
    ensures forall x | x in RemoveFirstPlaceholder(rows) :: x in rows
  {
    match FirstPlaceholder(rows)
    case None =>
    case Some(k) =>
      var rest := rows[..k] + rows[k + 1..];
      RemoveAtKeepsDistinct(rows, k);
      forall i | 0 <= i < |rest| ensures rest[i] in rows {
        var i' := if i < k then i else i + 1;
        assert rest[i] == rows[i'];
      }
  }

  /** A fresh row joining a list of distinct nodes keeps them distinct. */
  lemma SignedUpDistinct(card: Card, row: Row)
    requires DistinctIds(card.rows) && row.Participant?
    requires forall r | r in card.rows && r.Participant? :: r.id != row.id
    ensures DistinctIds(SignedUp(card, row).rows)
  {
    var rest := RemoveFirstPlaceholder(card.rows);
    RemoveFirstPlaceholderDistinct(card.rows);
    AppendFreshDistinct(rest, row);
    assert SignedUp(card, row).rows == rest + [row];
  }

  /** An unregister leaves no copy of its row in a list of distinct nodes, and keeps the rest distinct. */
  lemma UnregisteredDistinct(card: Card, row: Row)
    requires DistinctIds(card.rows) && row.Participant?
    ensures DistinctIds(Unregistered(card, row).rows) && row !in Unregistered(card, row).rows
  {
    RemoveNodeDistinct(card.rows, row);
  }

  /**
    Dropping the first placeholder keeps every participant row, in order, and
    drops exactly one placeholder: the first, with the rows around it kept in order.
  */
  lemma RemoveFirstPlaceholderEffect(rows: seq<Row>)
    ensures ParticipantRows(RemoveFirstPlaceholder(rows)) == ParticipantRows(rows)
    ensures Placeholder !in rows ==> RemoveFirstPlaceholder(rows) == rows
    ensures Placeholder in rows ==>
              multiset(RemoveFirstPlaceholder(rows)) == multiset(rows) - multiset{Placeholder}
    ensures Placeholder in rows ==>
              exists k | 0 <= k < |rows| :: rows[k] == Placeholder && Placeholder !in rows[..k]
                                            && RemoveFirstPlaceholder(rows) == rows[..k] + rows[k + 1..]
  {
    match FirstPlaceholder(rows)
    case None =>
    case Some(k) =>
      RemoveFirstPlaceholderAt(rows, k);
      PlaceholderDropped(rows, k);
      assert Placeholder !in rows[..k];
  }

  lemma RemoveFirstPlaceholderAt(rows: seq<Row>, k: nat)
    requires FirstPlaceholder(rows) == Some(k)
    ensures RemoveFirstPlaceholder(rows) == rows[..k] + rows[k + 1..]
  {
  }

  /** Dropping a placeholder from its position drops it from the multiset and loses no participant row. */
  lemma PlaceholderDropped(rows: seq<Row>, k: nat)
    requires k < |rows| && rows[k] == Placeholder
    ensures multiset(rows[..k] + rows[k + 1..]) == multiset(rows) - multiset{Placeholder}
    ensures ParticipantRows(rows[..k] + rows[k + 1..]) == ParticipantRows(rows)
  {
    SplitAtPlaceholder(rows, k);
    PlaceholderNotCounted(rows[..k], rows[k + 1..]);
  }

  lemma SplitAtPlaceholder(rows: seq<Row>, k: nat)
    requires k < |rows| && rows[k] == Placeholder
    ensures rows == rows[..k] + [Placeholder] + rows[k + 1..]
  {
    assert rows[..k + 1] == rows[..k] + [Placeholder];
  }

  lemma PlaceholderNotCounted(before: seq<Row>, after: seq<Row>)
    ensures ParticipantRows(before + [Placeholder] + after) == ParticipantRows(before + after)
  {
    var withPlaceholder := before + [Placeholder];
    assert withPlaceholder[..|withPlaceholder| - 1] == before;
    assert ParticipantRows(withPlaceholder) == ParticipantRows(before);
    ParticipantRowsAppend(withPlaceholder, after);
    ParticipantRowsAppend(before, after);
  }

  /**
    What a signup does to an entry, for any list: exactly one placeholder goes
    if there was one, the new row comes last, the participants are the old ones
    plus the new row, and the capacity reads the new count over the stored maximum.
  */
  lemma SignedUpEffect(card: Card, row: Row)
    requires row.Participant?
    ensures var after := SignedUp(card, row);
      && after.storedMax == card.storedMax
      && after.rows[|after.rows| - 1] == row
      && ParticipantRows(after.rows) == ParticipantRows(card.rows) + [row]
      && (Placeholder !in card.rows ==> after.rows == card.rows + [row])
      && (Placeholder in card.rows ==>
            multiset(after.rows) == multiset(card.rows) - multiset{Placeholder} + multiset{row})
      && (MaxOf(card) >= 0 ==>
            CapacityNumbers(after.capacityText) == Some((|ParticipantRows(card.rows)| + 1, MaxOf(card) as nat)))
  {
    var rest := RemoveFirstPlaceholder(card.rows);
    RemoveFirstPlaceholderEffect(card.rows);
    ParticipantRowsAppend(rest, [row]);
    assert [row][..0] == [];
    assert ParticipantRows([row]) == [row];
    var count := |ParticipantRows(rest + [row])|;
    assert count == |ParticipantRows(card.rows)| + 1;
    if MaxOf(card) >= 0 {
      CapacityRoundTrip(count, MaxOf(card));
    }
  }

  /** A signup keeps both invariants of the entry. */
  lemma SignupKeepsConsistent(card: Card, row: Row)
    requires Consistent(card) && row.Participant?
    ensures Consistent(SignedUp(card, row))
  {
    SignupKeepsShape(card, row);
    SignupKeepsCount(card, row);
  }

  /** After a signup the list is one or more participant rows. */
  lemma SignupKeepsShape(card: Card, row: Row)
    requires WellFormedRows(card.rows) && row.Participant?
    ensures WellFormedRows(SignedUp(card, row).rows)
  {
    var rest := RemoveFirstPlaceholder(card.rows);
    RemoveFirstPlaceholderEffect(card.rows);
    if card.rows == [Placeholder] {
      assert multiset(rest) == multiset{};
      assert rest == [];
    } else {
      assert Placeholder !in card.rows;
    }
    assert SignedUp(card, row).rows == rest + [row];
  }

  /** After a signup from a consistent entry the capacity text shows the new count over the stored maximum. */
  lemma SignupKeepsCount(card: Card, row: Row)
    requires Consistent(card) && row.Participant?
    ensures var after := SignedUp(card, row);
      CapacityNumbers(after.capacityText) == Some((|ParticipantRows(after.rows)|, MaxOf(after)))
  {
    var (current, max) := CapacityNumbers(card.capacityText).value;
    assert MaxOf(card) == max;
    var rows := RemoveFirstPlaceholder(card.rows) + [row];
    CapacityRoundTrip(|ParticipantRows(rows)|, max);
  }

  /**
    What an unregister does to an entry: an attached row leaves the list, and
    the placeholder comes in exactly when the list is then empty; a detached
    row leaves the list as it was. Either way a capacity text that matches the
    pattern is rewritten to `max(0, N - 1)/M`, and one that does not is kept.
  */
  lemma UnregisteredEffect(card: Card, row: Row)
    requires row.Participant?
    ensures var after := Unregistered(card, row);
      && after.storedMax == card.storedMax
      && (row in card.rows && |card.rows| == 1 ==> after.rows == [Placeholder])
      && (row in card.rows && |card.rows| > 1 ==>
            multiset(after.rows) == multiset(card.rows) - multiset{row}
            && exists k | 0 <= k < |card.rows| :: card.rows[k] == row && after.rows == card.rows[..k] + card.rows[k + 1..])
      && (row !in card.rows ==> after.rows == card.rows)
      && (CapacityNumbers(card.capacityText).None? ==> after.capacityText == card.capacityText)
      && (CapacityNumbers(card.capacityText).Some? ==>
            var (current, max) := CapacityNumbers(card.capacityText).value;
            CapacityNumbers(after.capacityText) == Some((if current == 0 then 0 else current - 1, max)))
  {
    UnregisteredRows(card, row);
    UnregisteredCapacity(card, row);
  }

  lemma UnregisteredRows(card: Card, row: Row)
    requires row.Participant?
    ensures var after := Unregistered(card, row);
      && (row in card.rows && |card.rows| == 1 ==> after.rows == [Placeholder])
      && (row in card.rows && |card.rows| > 1 ==>
            multiset(after.rows) == multiset(card.rows) - multiset{row}
            && exists k | 0 <= k < |card.rows| :: card.rows[k] == row && after.rows == card.rows[..k] + card.rows[k + 1..])
  {
    if row in card.rows && |card.rows| > 1 {
      RemoveNodeKeepsOrder(card.rows, row);
      assert Unregistered(card, row).rows == RemoveNode(card.rows, row);
    }
  }

  lemma UnregisteredCapacity(card: Card, row: Row)
    ensures var after := Unregistered(card, row);
      && (CapacityNumbers(card.capacityText).None? ==> after.capacityText == card.capacityText)
      && (CapacityNumbers(card.capacityText).Some? ==>
            var (current, max) := CapacityNumbers(card.capacityText).value;
            CapacityNumbers(after.capacityText) == Some((if current == 0 then 0 else current - 1, max)))
  {
    var after := Unregistered(card, row);
    UnregisteredText(card, row);
    DecrementedNumbers(card.capacityText, after.capacityText);
  }

  lemma UnregisteredText(card: Card, row: Row)
    ensures Unregistered(card, row).capacityText == DecrementCapacity(card.capacityText)
  {
  }

  /** An unregister of a row attached to the entry's list keeps both invariants. */
  lemma UnregisterAttachedKeepsConsistent(card: Card, row: Row)
    requires Consistent(card) && row.Participant? && row in card.rows
    ensures Consistent(Unregistered(card, row))
  {
    UnregisterAttachedRows(card, row);
  }

  /**
    An unregister keeps the list's shape whether or not its row is attached: an
    attached row leaves participant rows or the placeholder alone, and a
    detached row leaves the list as it was.
  */
  lemma UnregisteredKeepsShape(card: Card, row: Row)
    requires WellFormedRows(card.rows) && row.Participant?
    ensures WellFormedRows(Unregistered(card, row).rows)
  {
    if row in card.rows {
      UnregisterAttachedRows(card, row);
    }
  }

  /** Removing an attached row keeps the list's shape and lowers the participant count by one. */
  lemma UnregisterAttachedRows(card: Card, row: Row)
    requires WellFormedRows(card.rows) && row.Participant? && row in card.rows
    ensures WellFormedRows(Unregistered(card, row).rows)
    ensures |ParticipantRows(Unregistered(card, row).rows)| == |ParticipantRows(card.rows)| - 1
  {
    assert card.rows != [Placeholder];
    ParticipantRowsOfParticipants(card.rows);
    var rest := RemoveNode(card.rows, row);
    UnregisterAttachedKeepsShape(card.rows, row);
    var rows := Unregistered(card, row).rows;
    if rest == [] {
      assert rows == [Placeholder];
      assert [Placeholder][..0] == [];
      assert ParticipantRows(rows) == [];
    } else {
      assert rows == rest;
      ParticipantRowsOfParticipants(rest);
    }
  }

  /** Removing an attached row from one or more participant rows leaves participant rows or the placeholder alone. */
  lemma UnregisterAttachedKeepsShape(rows: seq<Row>, row: Row)
    requires rows != [] && (forall i | 0 <= i < |rows| :: rows[i].Participant?) && row in rows
    ensures var rest := RemoveNode(rows, row);
      && |rest| == |rows| - 1
      && forall i | 0 <= i < |rest| :: rest[i].Participant?
  {
    var rest := RemoveNode(rows, row);
    forall i | 0 <= i < |rest| ensures rest[i].Participant? {
      assert rest[i] in multiset(rest);
      assert rest[i] in rows;
    }
  }

  /**
    The decrement does not look at attachment: an unregister whose row is no
    longer in the list (already removed by an earlier success) leaves the list
    as it was but lowers the count, so a consistent entry with participants
    stops being consistent.
  */
  lemma UnregisterDetachedBreaksCount(card: Card, row: Row)
    requires Consistent(card) && row.Participant? && row !in card.rows
    requires ParticipantRows(card.rows) != []
    ensures Unregistered(card, row).rows == card.rows
    ensures !Consistent(Unregistered(card, row))
  {
    var after := Unregistered(card, row);
    var current := |ParticipantRows(card.rows)|;
    assert CapacityNumbers(after.capacityText) == Some((current - 1, MaxOf(card) as nat));
  }

  /** Removing the only participant leaves the placeholder and brings `N/M` down to `0/M`. */
  lemma LastParticipantLeaves(card: Card, row: Row, max: nat)
    requires card.rows == [row] && row.Participant?
    requires card.capacityText == FormatCapacity(1, max)
    ensures Unregistered(card, row).rows == [Placeholder]
    ensures Unregistered(card, row).capacityText == FormatCapacity(0, max)
  {
    CapacityRoundTrip(1, max);
    CapacityRoundTrip(0, max);
    assert RemoveNode(card.rows, row) == [];
  }

  /** The first signup into an empty list replaces the placeholder and shows `1/M`. */
  lemma FirstParticipantJoins(card: Card, row: Row, max: nat)
    requires card.rows == [Placeholder] && row.Participant?
    requires card.storedMax == NatToString(max)
    ensures SignedUp(card, row).rows == [row]
    ensures SignedUp(card, row).capacityText == FormatCapacity(1, max)
  {
    ParseIntOfNatToString(max);
    assert FirstPlaceholder(card.rows) == Some(0);
    assert RemoveFirstPlaceholder(card.rows) == [];
    ParticipantRowsOfParticipants([row]);
  }
}
