/** ContactsController.php: the script blocks that save the contact form
    (update when it carries an id, create otherwise) and delete a contact
    named in the query string. Each block catches every exception into
    `$errors["server"]` and redirects to the list page, with
    `?success=true` when no error was recorded.

    `SaveSpec` and `DeleteSpec` state what a block does over the values it
    reads; `Save` and `Delete` go through the Contact objects and the store
    and are proved to agree with them. A connection failure of
    `new Database()` is the input `connect` (the PDO message, if any). */
module ContactsController {
  import opened Php
  import opened Database
  import opened FormRequests
  import Contacts

  const InvalidForm := "Érvénytelen, vagy hiányzó adatok az űrlapon!"
  const ListPage := "/contacts.php"
  const SuccessPage := "/contacts.php?success=true"

  /** What one block leaves behind: its response, and the contacts table. */
  datatype Effect = Effect(response: Response, contacts: Table)

  /** The redirect after a block: back to the list, flagged as a success
      exactly when no error was recorded. */
  function Redirect(errors: map<string, string>): (r: Response)
    ensures r.errors == errors
    ensures r.location == SuccessPage <==> errors == map[]
    ensures r.location == ListPage <==> errors != map[]
  {
    Response(errors, if errors == map[] then SuccessPage else ListPage)
  }

  /** A block that ended in an exception, the table as it was. */
  function Fail(message: string, t: Table): (e: Effect)
    ensures e.response.errors == map["server" := message] && e.contacts == t
    ensures e.response.errors != map[]
  {
    assert "server" in map["server" := message];
    Effect(Redirect(map["server" := message]), t)
  }

  /** The columns the save block copies from the form onto the contact. */
  function FormFields(request: FormRequest): Record {
    map["name" := request.Get("name"), "phone" := request.Get("phone"), "address" := request.Get("address")]
  }

  /** validateContact on the fields copied from the form. */
  function FieldErrors(request: FormRequest): map<string, string> {
    Contacts.ContactErrors(request.Get("name"), request.Get("phone"), request.Get("address"))
  }

  /** The save block over its inputs: connect, load the contact when the
      form's id is truthy, validate the form's fields, then update the
      loaded row or insert a new one. */
  function SaveSpec(request: FormRequest, t: Table, connect: Option<string>, loadExec: Exec, writeExec: Exec): Effect
    requires t.Valid()
  {
    var id := request.Get("id");
    var load := LoadRow(t, id, loadExec);
    var fields := FieldErrors(request);
    if connect.Some? then Fail(ConnectError + connect.value, t)
    else if Truthy(id) && load.Err? then Fail(Contacts.LoadError + load.message, t)
    else CheckedWrite(fields, FormFields(request), t, if Truthy(id) then Some(load.value.0) else None, writeExec)
  }

  /** The save once the contact is at hand: an invalid form is reported with
      the server message beside the field messages, a valid one is written. */
  function CheckedWrite(fields: map<string, string>, values: Record, t: Table, key: Option<nat>, writeExec: Exec): Effect
    requires t.Valid()
  {
    if fields != map[] then Effect(Redirect(fields["server" := InvalidForm]), t)
    else WriteSpec(values, t, key, writeExec)
  }

  /** The write step of the save block: update the loaded row `key`, or
      insert when no contact was loaded. */
  function WriteSpec(fields: Record, t: Table, key: Option<nat>, writeExec: Exec): Effect
    requires t.Valid()
  {
    match key
    case Some(k) =>
      (match writeExec
       case Raised(m) => Fail(Contacts.UpdateError + ActionError + m, t)
       case Refused => Effect(Redirect(map[]), t)
       case Done => Effect(Redirect(map[]), Updated(t, Int(k), fields)))
    case None =>
      (match writeExec
       case Raised(m) => Fail(Contacts.CreateError + InsertError + m, t)
       case Refused => Fail(Contacts.CreateError + InsertFailed, t)
       case Done => Effect(Redirect(map[]), Appended(t, fields)))
  }

  /** The save succeeds exactly when the connection opens, an id in the form
      names a stored contact, the three fields are non-empty, and the write
      does not throw (an insert must also report its row). */
  lemma SaveSucceedsIff(request: FormRequest, t: Table, connect: Option<string>, loadExec: Exec, writeExec: Exec)
    requires t.Valid()
    ensures SaveSpec(request, t, connect, loadExec, writeExec).response.errors == map[]
        <==> && connect.None?
             && (Truthy(request.Get("id")) ==> LoadRow(t, request.Get("id"), loadExec).Ok?)
             && !Empty(request.Get("name")) && !Empty(request.Get("phone")) && !Empty(request.Get("address"))
             && (if Truthy(request.Get("id")) then !writeExec.Raised? else writeExec.Done?)
  {
    var fields := FieldErrors(request);
    Contacts.ContactValidIff(request.Get("name"), request.Get("phone"), request.Get("address"));
    if fields != map[] {
      assert "server" in fields["server" := InvalidForm];
    }
  }

  /** A failed save records a server message and leaves the table alone;
      an invalid form also reports every empty field. */
  lemma SaveFailureKeepsTable(request: FormRequest, t: Table, connect: Option<string>, loadExec: Exec, writeExec: Exec)
    requires t.Valid()
    ensures var e := SaveSpec(request, t, connect, loadExec, writeExec);
      e.response.errors != map[] ==> "server" in e.response.errors && e.contacts == t
    ensures var e := SaveSpec(request, t, connect, loadExec, writeExec);
      connect.None? && (Truthy(request.Get("id")) ==> LoadRow(t, request.Get("id"), loadExec).Ok?) && FieldErrors(request) != map[]
      ==> e.response.errors == FieldErrors(request)["server" := InvalidForm] && e.contacts == t
  {
  }

  /** The fields never report under "server", so the form's messages and the
      server message sit side by side. */
  lemma InvalidFormKeepsFieldMessages(request: FormRequest)
    ensures "server" !in FieldErrors(request)
    ensures var errors := FieldErrors(request)["server" := InvalidForm];
      errors.Keys == FieldErrors(request).Keys + {"server"}
      && forall f :: f in FieldErrors(request) ==> errors[f] == Contacts.Messages[f]
  {
    Contacts.ContactErrorKeys(request.Get("name"), request.Get("phone"), request.Get("address"));
  }

  /** A successful save without an id inserts one row under a fresh id, with
      exactly the form's three fields, and that row loads back. */
  lemma SaveCreatesLoadableRow(request: FormRequest, t: Table, loadExec: Exec)
    requires t.Valid()
    requires !Truthy(request.Get("id")) && FieldErrors(request) == map[]
    ensures var e := SaveSpec(request, t, None, loadExec, Done);
      && e.response.errors == map[]
      && e.contacts.rows.Keys == t.rows.Keys + {t.next} && t.next !in t.rows
      && (forall k :: k in t.rows ==> e.contacts.rows[k] == t.rows[k])
      && LoadRow(e.contacts, Int(t.next), Done) == Ok((t.next, FormFields(request)))
  {
    var e := SaveSpec(request, t, None, loadExec, Done);
    assert e.contacts == Appended(t, FormFields(request));
    assert FindId(e.contacts, Int(t.next)) == Some(t.next);
  }

  /** A successful save with an id overwrites the form's fields on the
      loaded row only; no row is added or removed. */
  lemma SaveUpdatesLoadedRow(request: FormRequest, t: Table, loadExec: Exec)
    requires t.Valid()
    requires Truthy(request.Get("id")) && LoadRow(t, request.Get("id"), loadExec).Ok? && FieldErrors(request) == map[]
    ensures var e := SaveSpec(request, t, None, loadExec, Done);
      var k := LoadRow(t, request.Get("id"), loadExec).value.0;
      && e.response.errors == map[]
      && KeyOf(request.Get("id")) == Some(k)
      && e.contacts.rows.Keys == t.rows.Keys
      && e.contacts.rows[k] == t.rows[k] + FormFields(request)
      && (forall j :: j in t.rows && j != k ==> e.contacts.rows[j] == t.rows[j])
  {
  }

  /** The delete block over its inputs: connect, load the contact the query
      names, then delete it by the loaded id. */
  function DeleteSpec(query: map<string, Value>, t: Table, connect: Option<string>, loadExec: Exec, writeExec: Exec): Effect
    requires t.Valid()
    requires IsSet(query, "delete")
  {
    var load := LoadRow(t, query["delete"], loadExec);
    if connect.Some? then Fail(ConnectError + connect.value, t)
    else if load.Err? then Fail(Contacts.LoadError + load.message, t)
    else
      match writeExec
      case Raised(m) => Fail(Contacts.DeleteError + ActionError + m, t)
      case Refused => Effect(Redirect(map[]), t)
      case Done => Effect(Redirect(map[]), Deleted(t, Int(load.value.0)))
  }

  /** The delete succeeds exactly when the connection opens, the named
      contact exists, and the statement does not throw; any failure is one
      server message and leaves the table alone. */
  lemma DeleteSucceedsIff(query: map<string, Value>, t: Table, connect: Option<string>, loadExec: Exec, writeExec: Exec)
    requires t.Valid()
    requires IsSet(query, "delete")
    ensures var e := DeleteSpec(query, t, connect, loadExec, writeExec);
      e.response.errors == map[] <==> connect.None? && LoadRow(t, query["delete"], loadExec).Ok? && !writeExec.Raised?
    ensures var e := DeleteSpec(query, t, connect, loadExec, writeExec);
      e.response.errors != map[] ==> e.response.errors.Keys == {"server"} && e.contacts == t
  {
    var e := DeleteSpec(query, t, connect, loadExec, writeExec);
    if e.response.errors != map[] {
      assert "server" in e.response.errors;
    }
  }

  /** A delete that runs removes the named row and nothing else, after
      which that id no longer loads. */
  lemma DeleteRemovesNamedRow(query: map<string, Value>, t: Table, loadExec: Exec)
    requires t.Valid()
    requires IsSet(query, "delete") && LoadRow(t, query["delete"], loadExec).Ok?
    ensures var e := DeleteSpec(query, t, None, loadExec, Done);
      var k := KeyOf(query["delete"]).value;
      && k in t.rows
      && e.contacts.rows.Keys == t.rows.Keys - {k}
      && (forall j :: j in e.contacts.rows ==> e.contacts.rows[j] == t.rows[j])
      && LoadRow(e.contacts, query["delete"], Done) == Err(NoMatch)
  {
  }

  /** The save block, run on the form: `None` when nothing was submitted. */
  method Save(request: FormRequest, db: Store, connect: Option<string>, loadExec: Exec, writeExec: Exec)
    returns (r: Option<Response>)
    requires db.Valid()
    modifies db
    ensures db.Valid()
    ensures db.companies == old(db.companies) && db.emails == old(db.emails)
    ensures !request.HasData() ==> r == None && db.contacts == old(db.contacts)
    ensures request.HasData() ==>
      var e := SaveSpec(request, old(db.contacts), connect, loadExec, writeExec);
      r == Some(e.response) && db.contacts == e.contacts
  {
    if !request.HasData() {
      return None;
    }
    var errors;
    if connect.Some? {
      errors := map["server" := ConnectError + connect.value];
    } else {
      errors := Attempt(request, db, loadExec, writeExec);
    }
    r := Some(Redirect(errors));
  }

  /** The `try` block of the save once connected, with its `catch`: the
      errors it records. */
  method Attempt(request: FormRequest, db: Store, loadExec: Exec, writeExec: Exec)
    returns (errors: map<string, string>)
    requires db.Valid()
    modifies db
    ensures db.Valid()
    ensures db.companies == old(db.companies) && db.emails == old(db.emails)
    ensures var e := SaveSpec(request, old(db.contacts), None, loadExec, writeExec);
      errors == e.response.errors && db.contacts == e.contacts
  {
    ghost var t := db.contacts;
    ghost var id := request.Get("id");
    var loaded := Prepare(request, db, loadExec);
    if loaded.Err? {
      return map["server" := loaded.message];
    }
    ghost var key := if Truthy(id) then Some(LoadRow(t, id, loadExec).value.0) else None;
    errors := Check(loaded.value, key, writeExec);
  }

  /** The rest of the `try` block on the prepared contact: validate it, and
      write it when it is valid. */
  method Check(contact: Contacts.Contact, ghost key: Option<nat>, writeExec: Exec) returns (errors: map<string, string>)
    requires contact.db.Valid()
    requires key.Some? ==> contact.id == Int(key.value) && key.value in contact.db.contacts.rows
    requires key.None? ==> contact.id == Null
    modifies contact.db
    ensures contact.db.Valid()
    ensures contact.db.companies == old(contact.db.companies) && contact.db.emails == old(contact.db.emails)
    ensures var e := CheckedWrite(Contacts.ContactErrors(contact.name, contact.phone, contact.address),
                                  map["name" := contact.name, "phone" := contact.phone, "address" := contact.address],
                                  old(contact.db.contacts), key, writeExec);
      errors == e.response.errors && contact.db.contacts == e.contacts
  {
    var verdict := contact.ValidateContact(contact);
    if verdict.Invalid? {
      return verdict.errors["server" := InvalidForm];
    }
    var outcome := Write(contact, key, writeExec);
    errors := if outcome.Throw? then map["server" := outcome.message] else map[];
  }

  /** The contact the save works on: loaded when the form's id is truthy,
      empty otherwise, with the form's three fields copied onto it. */
  method Prepare(request: FormRequest, db: Store, loadExec: Exec) returns (r: Result<Contacts.Contact>)
    modifies db`prepared
    ensures var id := request.Get("id");
      && (r.Ok? <==> !Truthy(id) || LoadRow(db.contacts, id, loadExec).Ok?)
      && (r.Err? ==> r.message == Contacts.LoadError + LoadRow(db.contacts, id, loadExec).message)
    ensures r.Ok? ==>
      && fresh(r.value) && r.value.db == db
      && r.value.name == request.Get("name") && r.value.phone == request.Get("phone")
      && r.value.address == request.Get("address")
      && (Truthy(request.Get("id")) ==> r.value.id == Int(LoadRow(db.contacts, request.Get("id"), loadExec).value.0))
      && (!Truthy(request.Get("id")) ==> r.value.id == Null)
  {
    if Truthy(request.Get("id")) {
      r := Contacts.Contact.New(db, request.Get("id"), loadExec);
    } else {
      r := Contacts.Contact.New(db, Null, loadExec);
    }
    if r.Ok? {
      var contact := r.value;
      contact.name := request.Get("name");
      contact.phone := request.Get("phone");
      contact.address := request.Get("address");
    }
  }

  /** The write step on a validated contact: `updateContact` when it has a
      (truthy) id, `createContact` otherwise; a thrown exception becomes the
      outcome. */
  method Write(contact: Contacts.Contact, ghost key: Option<nat>, writeExec: Exec) returns (outcome: Outcome)
    requires contact.db.Valid()
    requires key.Some? ==> contact.id == Int(key.value) && key.value in contact.db.contacts.rows
    requires key.None? ==> contact.id == Null
    modifies contact.db
    ensures contact.db.Valid()
    ensures contact.db.companies == old(contact.db.companies) && contact.db.emails == old(contact.db.emails)
    ensures var e := WriteSpec(map["name" := contact.name, "phone" := contact.phone, "address" := contact.address],
                               old(contact.db.contacts), key, writeExec);
      && contact.db.contacts == e.contacts
      && (outcome.Pass? ==> e.response.errors == map[])
      && (outcome.Throw? ==> e.response.errors == map["server" := outcome.message])
  {
    outcome := Pass;
    if Truthy(contact.id) {
      var updated := contact.UpdateContact(contact, writeExec);
      if updated.Err? {
        outcome := Throw(updated.message);
      }
    } else {
      outcome := contact.CreateContact(contact, writeExec);
    }
  }

  /** The delete block, run on the query string: `None` unless `delete` is set. */
  method Delete(query: map<string, Value>, db: Store, connect: Option<string>, loadExec: Exec, writeExec: Exec)
    returns (r: Option<Response>)
    requires db.Valid()
    modifies db
    ensures db.Valid()
    ensures db.companies == old(db.companies) && db.emails == old(db.emails)
    ensures !IsSet(query, "delete") ==> r == None && db.contacts == old(db.contacts)
    ensures IsSet(query, "delete") ==>
      var e := DeleteSpec(query, old(db.contacts), connect, loadExec, writeExec);
      r == Some(e.response) && db.contacts == e.contacts
  {
    if !IsSet(query, "delete") {
      return None;
    }
    var errors: map<string, string> := map[];
    var outcome := Pass;
    if connect.Some? {
      outcome := Throw(ConnectError + connect.value);
    } else {
      var loaded := Contacts.Contact.New(db, query["delete"], loadExec);
      if loaded.Err? {
        outcome := Throw(loaded.message);
      } else {
        var contact := loaded.value;
        var deleted := contact.DeleteContact(contact.id, writeExec);
        if deleted.Err? {
          outcome := Throw(deleted.message);
        }
      }
    }
    if outcome.Throw? {
      errors := errors["server" := outcome.message];
    }
    r := Some(Redirect(errors));
  }
}
