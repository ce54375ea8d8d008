/** The journal backend: the create-payload validator and the five routes over the entry
    table. The table is a sequence of rows: a create appends, an update rewrites its row in
    place, and `/get/` lists the rows in that sequence's order. */
module Server {
  import opened Js
  import opened Context

  /** A request body of `/create/` or `/update/:id` that is a JSON object: every property of
      an entry, each one possibly absent (`Undefined`) or of any JSON type. A missing or `null`
      body is not represented. */
  datatype Body = Body(
    id: Value,
    title: Value,
    description: Value,
    created_at: Value,
    scheduled_date: Value)

  /** The `/create/` body after its two dates have been coerced to Date objects in place. */
  datatype NewEntryBody = NewEntryBody(
    id: Value,
    title: Value,
    description: Value,
    created_at: Date,
    scheduled_date: Date)

  /** What a route sends: its success payload, or `{msg}` with status 500. */
  datatype Reply<T> = Ok(value: T) | Fail(msg: string)

  /** How `validateCreateEntry` ends: it returns, or throws an Error with a message. */
  datatype Validation = Passed | Thrown(message: string)

  const TitleRequired: string := "Title is required and must be a non-empty string."
  const DescriptionRequired: string := "Description is required and must be a non-empty string."
  const ScheduledDateInvalid: string := "Scheduled date must be a valid date."

  const FindError: string := "Error finding entry with id "
  const CreateError: string := "Error creating entry"
  const UpdateError: string := "Error updating"
  const DeleteError: string := "Error deleting entry"
  const UpdatedMessage: string := "Updated successfully"
  const DeletedMessage: string := "Deleted successfully"

  /** A string with at least one non-whitespace character. */
  predicate NonBlankString(v: Value) {
    v.Str? && !Blank(v.s)
  }

  /** The required-field test `!v || typeof v !== "string" || v.trim() === ""`, negated:
      it accepts exactly the strings that are not whitespace only. */
  function IsFilledString(v: Value): (ok: bool)
    ensures ok <==> NonBlankString(v)
  {
    if !Truthy(v) || !v.Str? then false
    else
      TrimIsEmptyIffBlank(v.s);
      Trim(v.s) != ""
  }

  /** `validateCreateEntry`, run on the body whose dates are already Date objects. A Date is
      always truthy, and its `toString()` fails `Date.parse` exactly when it is the Invalid
      Date, so the third test rejects exactly an invalid `scheduled_date`. */
  function ValidateCreateEntry(data: NewEntryBody): (r: Validation)
    ensures r == Passed <==>
      NonBlankString(data.title) && NonBlankString(data.description) && data.scheduled_date.Time?
    ensures !NonBlankString(data.title) ==> r == Thrown(TitleRequired)
    ensures NonBlankString(data.title) && !NonBlankString(data.description) ==>
      r == Thrown(DescriptionRequired)
    ensures NonBlankString(data.title) && NonBlankString(data.description) && data.scheduled_date.InvalidDate? ==>
      r == Thrown(ScheduledDateInvalid)
  {
    if !IsFilledString(data.title) then Thrown(TitleRequired)
    else if !IsFilledString(data.description) then Thrown(DescriptionRequired)
    else if data.scheduled_date.InvalidDate? then Thrown(ScheduledDateInvalid)
    else Passed
  }

  /** A date property as the create path coerces it, and as the update path coerces
      `created_at`: absent or falsy becomes `new Date()`, the current time `now`; anything
      else becomes `new Date(value)`. */
  function CoerceDate(v: Value, now: int, parse: DateParser): (d: Date)
    ensures !Truthy(v) ==> d == Time(now)
    ensures v.Str? && v.s != "" ==>
      (d.Time? <==> parse(v.s).Some? && -MaxTime <= parse(v.s).value <= MaxTime)
    ensures v.Str? && v.s != "" && d.Time? ==> d.ms == parse(v.s).value
  {
    if Truthy(v) then NewDate(v, parse) else Time(now)
  }

  /** A row as the table holds it: an id, and both dates valid Date objects. */
  predicate StoredRow(e: Entry) {
    && e.id.Some?
    && e.created_at.AsDate? && e.created_at.date.Time?
    && e.scheduled_date.AsDate? && e.scheduled_date.date.Time?
  }

  /** The row the table inserts for a create body, or None where the table refuses it: it
      takes the body's string id, or the generated `freshId` when the body has none, and
      refuses an id already in use, an id that is not a string, a non-string title or
      description, and an Invalid Date. */
  function InsertedRow(rows: seq<Entry>, data: NewEntryBody, freshId: string): (r: Option<Entry>)
    ensures r.Some? ==> StoredRow(r.value)
    ensures r.Some? && !HasId(rows, freshId) ==> !HasId(rows, r.value.id.value)
    ensures data.id.Str? && HasId(rows, data.id.s) ==> r.None?
  {
    if !(data.title.Str? && data.description.Str? && data.created_at.Time? && data.scheduled_date.Time?) then
      None
    else
      var row := Entry(Some(freshId), data.title.s, data.description.s,
                       AsDate(data.created_at), AsDate(data.scheduled_date));
      match data.id
      case Undefined => Some(row)
      case Str(s) => if HasId(rows, s) then None else Some(row.(id := Some(s)))
      case _ => None
  }

  /** A string field as the table updates it: absent keeps the current value, a string replaces
      it, any other type is refused. */
  function MergeString(v: Value, current: string): (r: Option<string>)
    ensures v.Undefined? ==> r == Some(current)
    ensures v.Str? ==> r == Some(v.s)
    ensures r.Some? <==> v.Undefined? || v.Str?
  {
    match v
    case Undefined => Some(current)
    case Str(s) => Some(s)
    case _ => None
  }

  /** A date field as the table updates it: absent keeps the current value, a valid Date replaces
      it, and anything else (`null`, `""`, `false`, `0`, the Invalid Date) is refused. */
  function MergeDate(v: Value, current: Stamp): (r: Option<Stamp>)
    ensures v.Undefined? ==> r == Some(current)
    ensures v.DateObj? && v.d.Time? ==> r == Some(AsDate(v.d))
    ensures r.Some? <==> v.Undefined? || (v.DateObj? && v.d.Time?)
  {
    match v
    case Undefined => Some(current)
    case DateObj(d) => if d.Time? then Some(AsDate(d)) else None
    case _ => None
  }

  /** The table's `update` of the row at `i` with the coerced body `data`. An id in the body
      renames the row, which the table refuses when another row already has that id. */
  function MergedRow(rows: seq<Entry>, i: nat, data: Body): (r: Option<Entry>)
    requires i < |rows|
    ensures r.Some? <==>
      && (data.id.Undefined? || (data.id.Str? && (rows[i].id == Some(data.id.s) || !HasId(rows, data.id.s))))
      && (data.title.Undefined? || data.title.Str?)
      && (data.description.Undefined? || data.description.Str?)
      && (data.created_at.Undefined? || (data.created_at.DateObj? && data.created_at.d.Time?))
      && (data.scheduled_date.Undefined? || (data.scheduled_date.DateObj? && data.scheduled_date.d.Time?))
    ensures r.Some? ==>
      && r.value.id == (if data.id.Str? then Some(data.id.s) else rows[i].id)
      && r.value.title == (if data.title.Str? then data.title.s else rows[i].title)
      && r.value.description == (if data.description.Str? then data.description.s else rows[i].description)
      && r.value.created_at == (if data.created_at.DateObj? then AsDate(data.created_at.d) else rows[i].created_at)
      && r.value.scheduled_date ==
           (if data.scheduled_date.DateObj? then AsDate(data.scheduled_date.d) else rows[i].scheduled_date)
    ensures r.Some? && StoredRow(rows[i]) ==> StoredRow(r.value)
    ensures r.Some? ==> r.value.id == rows[i].id || (r.value.id.Some? && !HasId(rows, r.value.id.value))
  {
    var row := rows[i];
    var id :=
      match data.id
      case Undefined => Some(row.id)
      case Str(s) => if row.id == Some(s) || !HasId(rows, s) then Some(Some(s)) else None
      case _ => None;
    var title := MergeString(data.title, row.title);
    var description := MergeString(data.description, row.description);
    var created := MergeDate(data.created_at, row.created_at);
    var scheduled := MergeDate(data.scheduled_date, row.scheduled_date);
    if id.Some? && title.Some? && description.Some? && created.Some? && scheduled.Some? then
      Some(Entry(id.value, title.value, description.value, created.value, scheduled.value))
    else
      None
  }

  /** The create request succeeds: both required strings are filled, both coerced dates are
      valid, and the body's id is absent or an unused string. */
  ghost predicate CreateAccepted(rows: seq<Entry>, payload: Body, now: int, parse: DateParser) {
    && NonBlankString(payload.title)
    && NonBlankString(payload.description)
    && CoerceDate(payload.scheduled_date, now, parse).Time?
    && CoerceDate(payload.created_at, now, parse).Time?
    && (payload.id.Undefined? || (payload.id.Str? && !HasId(rows, payload.id.s)))
  }

  /** The entry a successful create stores for `payload`. */
  ghost predicate CreatedFrom(e: Entry, payload: Body, now: int, parse: DateParser, freshId: string) {
    && e.id == Some(if payload.id.Str? then payload.id.s else freshId)
    && payload.title.Str? && e.title == payload.title.s
    && payload.description.Str? && e.description == payload.description.s
    && e.created_at == AsDate(CoerceDate(payload.created_at, now, parse))
    && e.scheduled_date == AsDate(CoerceDate(payload.scheduled_date, now, parse))
  }

  /** The update request succeeds on an existing row: every property present has the type
      its column needs, and an id in the body is the row's own or unused. */
  ghost predicate UpdateAccepted(rows: seq<Entry>, id: string, payload: Body, now: int, parse: DateParser) {
    && (payload.id.Undefined? || (payload.id.Str? && (payload.id.s == id || !HasId(rows, payload.id.s))))
    && (payload.title.Undefined? || payload.title.Str?)
    && (payload.description.Undefined? || payload.description.Str?)
    && (payload.scheduled_date.Undefined? ||
        (Truthy(payload.scheduled_date) && NewDate(payload.scheduled_date, parse).Time?))
    && CoerceDate(payload.created_at, now, parse).Time?
  }

  /** How an accepted update turns `before` into `after`: each property present in the
      payload replaces its field, each absent one is kept, and `created_at` is reset to the
      payload's date or, when it has none, to `now`. */
  ghost predicate UpdatedFrom(before: Entry, after: Entry, payload: Body, now: int, parse: DateParser) {
    && after.id == (if payload.id.Str? then Some(payload.id.s) else before.id)
    && after.title == (if payload.title.Str? then payload.title.s else before.title)
    && after.description == (if payload.description.Str? then payload.description.s else before.description)
    && after.scheduled_date ==
         (if Truthy(payload.scheduled_date) then AsDate(NewDate(payload.scheduled_date, parse))
          else before.scheduled_date)
    && after.created_at == AsDate(CoerceDate(payload.created_at, now, parse))
  }

  /** The entry table behind the five routes. */
  class EntryServer {
    var rows: seq<Entry>

    /** Every row has an id and valid dates, and no two rows share an id. */
    ghost predicate Valid()
      reads this
    {
      && UniqueIds(rows)
      && forall i :: 0 <= i < |rows| ==> StoredRow(rows[i])
    }

    constructor ()
      ensures Valid() && rows == []
    {
      rows := [];
    }

    /** `GET /get/`: every stored entry, in the table's order; `[]` for an empty table. */
    method GetAll() returns (all: seq<Entry>)
      ensures all == rows
    {
      all := rows;
    }

    /** `GET /get/:id`: the entry with that id, or the not-found message naming the id. */
    method GetById(id: string) returns (reply: Reply<Entry>)
      ensures reply.Ok? <==> HasId(rows, id)
      ensures reply.Ok? ==> reply.value in rows && reply.value.id == Some(id)
      ensures reply.Fail? ==> reply.msg == FindError + id
      ensures reply == GetByIdOf(rows, id)
    {
      reply := GetByIdOf(rows, id);
    }

    /** `POST /create/`: coerce both dates in place, validate, then insert. Every failure,
        whichever check or table constraint caused it, is the one message `CreateError`
        (for a body that is a JSON object; see `Body`).
        `freshId` is the id the table would generate, which is not in use. */
    method Create(payload: Body, now: int, parse: DateParser, freshId: string) returns (reply: Reply<Entry>)
      requires Valid()
      requires !HasId(rows, freshId)
      modifies this
      ensures Valid()
      ensures reply.Ok? <==> CreateAccepted(old(rows), payload, now, parse)
      ensures reply.Fail? ==> reply.msg == CreateError && rows == old(rows)
      ensures reply.Ok? ==> rows == old(rows) + [reply.value]
      ensures reply.Ok? ==> CreatedFrom(reply.value, payload, now, parse, freshId)
      ensures reply.Ok? ==> GetByIdOf(rows, reply.value.id.value) == Ok(reply.value)
      ensures !NonBlankString(payload.title) || !NonBlankString(payload.description) ==> reply.Fail?
      ensures (payload.scheduled_date.Str? && payload.scheduled_date.s != "" &&
               parse(payload.scheduled_date.s).None?) ==> reply.Fail?
      ensures payload.id.Str? && HasId(old(rows), payload.id.s) ==> reply.Fail?
    {
      var newEntryBody := NewEntryBody(
        payload.id, payload.title, payload.description,
        CoerceDate(payload.created_at, now, parse),
        CoerceDate(payload.scheduled_date, now, parse));
      var check := ValidateCreateEntry(newEntryBody);
      if check.Thrown? {
        reply := Fail(CreateError);
        return;
      }
      var row := InsertedRow(rows, newEntryBody, freshId);
      if row.None? {
        reply := Fail(CreateError);
        return;
      }
      AppendKeepsUnique(rows, row.value);
      rows := rows + [row.value];
      FirstIndexOfUnique(rows, row.value.id.value, |rows| - 1);
      reply := Ok(row.value);
    }

    /** `PUT /update/:id`: coerce `scheduled_date` only when it is truthy and `created_at`
        always, then let the table merge the body into the row with that id. */
    method Update(id: string, payload: Body, now: int, parse: DateParser) returns (reply: Reply<string>)
      requires Valid()
      modifies this
      ensures Valid()
      ensures reply.Ok? <==> HasId(old(rows), id) && UpdateAccepted(old(rows), id, payload, now, parse)
      ensures reply.Ok? ==> reply.value == UpdatedMessage
      ensures reply.Fail? ==> reply.msg == UpdateError && rows == old(rows)
      ensures reply.Ok? ==>
        var i := FirstIndexOf(old(rows), id).value;
        && |rows| == |old(rows)|
        && (forall j :: 0 <= j < |rows| && j != i ==> rows[j] == old(rows)[j])
        && UpdatedFrom(old(rows)[i], rows[i], payload, now, parse)
    {
      var body := payload;
      if Truthy(body.scheduled_date) {
        body := body.(scheduled_date := DateObj(NewDate(body.scheduled_date, parse)));
      }
      body := body.(created_at := DateObj(CoerceDate(body.created_at, now, parse)));
      var found := FirstIndexOf(rows, id);
      if found.None? {
        reply := Fail(UpdateError);
        return;
      }
      var i := found.value;
      var merged := MergedRow(rows, i, body);
      if merged.None? {
        reply := Fail(UpdateError);
        return;
      }
      ReplaceKeepsUnique(rows, i, merged.value);
      rows := rows[i := merged.value];
      reply := Ok(UpdatedMessage);
    }

    /** `DELETE /delete/:id`: remove the row with that id. */
    method Delete(id: string) returns (reply: Reply<string>)
      requires Valid()
      modifies this
      ensures Valid()
      ensures reply.Ok? <==> HasId(old(rows), id)
      ensures reply.Ok? ==> reply.value == DeletedMessage && |rows| == |old(rows)| - 1
      ensures reply.Fail? ==> reply.msg == DeleteError && rows == old(rows)
      ensures rows == WithoutId(old(rows), id)
      ensures !HasId(rows, id)
    {
      var found := FirstIndexOf(rows, id);
      if found.None? {
        WithoutIdNoMatch(rows, id);
        reply := Fail(DeleteError);
        return;
      }
      var i := found.value;
      RemoveAtIsWithoutId(rows, id, i);
      WithoutIdKeepsUnique(rows, id, i);
      WithoutIdRemovesAll(rows, id);
      rows := rows[..i] + rows[i + 1..];
      reply := Ok(DeletedMessage);
    }
  }

  /** What `GET /get/:id` replies on a table holding `rows`. */
  function GetByIdOf(rows: seq<Entry>, id: string): (reply: Reply<Entry>)
    ensures reply.Ok? <==> HasId(rows, id)
    ensures reply.Ok? ==> reply.value in rows && reply.value.id == Some(id)
    ensures reply.Fail? ==> reply.msg == FindError + id
  {
    var found := FirstIndexOf(rows, id);
    if found.None? then Fail(FindError + id) else Ok(rows[found.value])
  }

  /** Deleting one id leaves what `GET /get/:id` replies for every other id as it was: the
      same entry where it existed, the same not-found message where it did not. */
  lemma DeleteLeavesOthers(rows: seq<Entry>, id: string, other: string)
    requires UniqueIds(rows)
    requires other != id
    ensures GetByIdOf(WithoutId(rows, id), other) == GetByIdOf(rows, other)
  {
    var kept := WithoutId(rows, id);
    if FirstIndexOf(rows, id).Some? {
      WithoutIdKeepsUnique(rows, id, FirstIndexOf(rows, id).value);
    } else {
      WithoutIdNoMatch(rows, id);
    }
    match FirstIndexOf(rows, other)
    case None =>
    case Some(k) =>
      assert rows[k] in kept;
      var m :| 0 <= m < |kept| && kept[m] == rows[k];
      FirstIndexOfUnique(kept, other, m);
  }

  /** Appending a row with an unused id keeps ids unique. */
  lemma AppendKeepsUnique(rows: seq<Entry>, row: Entry)
    requires UniqueIds(rows)
    requires row.id.Some? && !HasId(rows, row.id.value)
    ensures UniqueIds(rows + [row])
  {
    var s := rows + [row];
    forall i, j | 0 <= i < j < |s| ensures s[i].id != s[j].id {
      if j == |rows| {
        assert s[i] == rows[i];
      }
    }
  }

  /** Replacing a row by one whose id is its own or unused keeps ids unique. */
  lemma ReplaceKeepsUnique(rows: seq<Entry>, i: nat, row: Entry)
    requires UniqueIds(rows) && i < |rows|
    requires row.id == rows[i].id || (row.id.Some? && !HasId(rows, row.id.value))
    ensures UniqueIds(rows[i := row])
  {
    var s := rows[i := row];
    forall a, b | 0 <= a < b < |s| ensures s[a].id != s[b].id {
      if a == i && row.id != rows[i].id {
        assert s[b] == rows[b];
      } else if b == i && row.id != rows[i].id {
        assert s[a] == rows[a];
      }
    }
  }
}
