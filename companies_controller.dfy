/** CompaniesController.php: the script blocks that save the company form
    (update when it carries an id, create otherwise) and delete a company
    named in the query string. Each block catches every exception into
    `$errors["server"]` and redirects to the list page, with
    `?success=true` when no error was recorded.

    `SaveSpec` and `DeleteSpec` state what a block does over the values it
    reads; `Save` and `Delete` go through the Company objects and the store
    and are proved to agree with them. A connection failure of
    `new Database()` is the input `connect` (the PDO message, if any). */
module CompaniesController {
  import opened Php
  import opened Database
  import opened FormRequests
  import Companies

  const InvalidForm := "Érvénytelen, vagy hiányzó adatok az űrlapon!"
  const ListPage := "/companies.php"
  const SuccessPage := "/companies.php?success=true"

  /** What one block leaves behind: its response, and the companies table. */
  datatype Effect = Effect(response: Response, companies: Table)

  /** The redirect after a block: back to the list, flagged as a success
      exactly when no error was recorded. */
  function Redirect(errors: map<string, string>): (r: Response)
    ensures r.errors == errors
    ensures r.location == SuccessPage <==> errors == map[]
    ensures r.location == ListPage <==> errors != map[]
  {
    Response(errors, if errors == map[] then SuccessPage else ListPage)
  }

  /** A block that ended in an exception, the table as it was. */
  function Fail(message: string, t: Table): (e: Effect)
    ensures e.response.errors == map["server" := message] && e.companies == t
    ensures e.response.errors != map[]
  {
    assert "server" in map["server" := message];
    Effect(Redirect(map["server" := message]), t)
  }

  /** The columns the save block copies from the form onto the company. */
  function FormFields(request: FormRequest): Record {
    map["name" := request.Get("name"), "address" := request.Get("address"), "contact_id" := request.Get("contact_id")]
  }

  /** validateCompany on the fields copied from the form. */
  function FieldErrors(request: FormRequest): map<string, string> {
    Companies.CompanyErrors(request.Get("name"), request.Get("address"), request.Get("contact_id"))
  }

  /** The save block over its inputs: connect, load the company when the
      form's id is truthy, validate the form's fields, then update the
      loaded row or insert a new one. */
  function SaveSpec(request: FormRequest, t: Table, connect: Option<string>, loadExec: Exec, writeExec: Exec): Effect
    requires t.Valid()
  {
    var id := request.Get("id");
    var load := LoadRow(t, id, loadExec);
    var fields := FieldErrors(request);
    if connect.Some? then Fail(ConnectError + connect.value, t)
    else if Truthy(id) && load.Err? then Fail(Companies.LoadError + load.message, t)
    else CheckedWrite(fields, FormFields(request), t, if Truthy(id) then Some(load.value.0) else None, writeExec)
  }

  /** The save once the company is at hand: an invalid form is reported with
      the server message beside the field messages, a valid one is written. */
  function CheckedWrite(fields: map<string, string>, values: Record, t: Table, key: Option<nat>, writeExec: Exec): Effect
    requires t.Valid()
  {
    if fields != map[] then Effect(Redirect(fields["server" := InvalidForm]), t)
    else WriteSpec(values, t, key, writeExec)
  }

  /** The write step of the save block: update the loaded row `key`, or
      insert when no company was loaded. */
  function WriteSpec(fields: Record, t: Table, key: Option<nat>, writeExec: Exec): Effect
    requires t.Valid()
  {
    match key
    case Some(k) =>
      (match writeExec
       case Raised(m) => Fail(Companies.UpdateError + ActionError + m, t)
       case Refused => Effect(Redirect(map[]), t)
       case Done => Effect(Redirect(map[]), Updated(t, Int(k), fields)))
    case None =>
      (match writeExec
       case Raised(m) => Fail(Companies.CreateError + InsertError + m, t)
       case Refused => Fail(Companies.CreateError + InsertFailed, t)
       case Done => Effect(Redirect(map[]), Appended(t, fields)))
  }

  /** The save succeeds exactly when the connection opens, an id in the form
      names a stored company, the three fields are non-empty, and the write
      does not throw (an insert must also report its row). */
  lemma SaveSucceedsIff(request: FormRequest, t: Table, connect: Option<string>, loadExec: Exec, writeExec: Exec)
    requires t.Valid()
    ensures SaveSpec(request, t, connect, loadExec, writeExec).response.errors == map[]
        <==> && connect.None?
             && (Truthy(request.Get("id")) ==> LoadRow(t, request.Get("id"), loadExec).Ok?)
             && !Empty(request.Get("name")) && !Empty(request.Get("address")) && !Empty(request.Get("contact_id"))
             && (if Truthy(request.Get("id")) then !writeExec.Raised? else writeExec.Done?)
  {
    var fields := FieldErrors(request);
    Companies.CompanyValidIff(request.Get("name"), request.Get("address"), request.Get("contact_id"));
    if fields != map[] {
      assert "server" in fields["server" := InvalidForm];
    }
  }

  /** A failed save records a server message and leaves the table alone;
      an invalid form also reports every empty field. */
  lemma SaveFailureKeepsTable(request: FormRequest, t: Table, connect: Option<string>, loadExec: Exec, writeExec: Exec)
    requires t.Valid()
    ensures var e := SaveSpec(request, t, connect, loadExec, writeExec);
      e.response.errors != map[] ==> "server" in e.response.errors && e.companies == t
    ensures var e := SaveSpec(request, t, connect, loadExec, writeExec);
      connect.None? && (Truthy(request.Get("id")) ==> LoadRow(t, request.Get("id"), loadExec).Ok?) && FieldErrors(request) != map[]
      ==> e.response.errors == FieldErrors(request)["server" := InvalidForm] && e.companies == t
  {
  }

  /** The fields never report under "server", so the form's messages and the
      server message sit side by side. */
  lemma InvalidFormKeepsFieldMessages(request: FormRequest)
    ensures "server" !in FieldErrors(request)
    ensures var errors := FieldErrors(request)["server" := InvalidForm];
      errors.Keys == FieldErrors(request).Keys + {"server"}
      && forall f :: f in FieldErrors(request) ==> errors[f] == Companies.Messages[f]
  {
    Companies.CompanyErrorKeys(request.Get("name"), request.Get("address"), request.Get("contact_id"));
  }

  /** A successful save without an id inserts one row under a fresh id, with
      exactly the form's three fields, and that row loads back. */
  lemma SaveCreatesLoadableRow(request: FormRequest, t: Table, loadExec: Exec)
    requires t.Valid()
    requires !Truthy(request.Get("id")) && FieldErrors(request) == map[]
    ensures var e := SaveSpec(request, t, None, loadExec, Done);
      && e.response.errors == map[]
      && e.companies.rows.Keys == t.rows.Keys + {t.next} && t.next !in t.rows
      && (forall k :: k in t.rows ==> e.companies.rows[k] == t.rows[k])
      && LoadRow(e.companies, Int(t.next), Done) == Ok((t.next, FormFields(request)))
  {
    var e := SaveSpec(request, t, None, loadExec, Done);
    assert e.companies == Appended(t, FormFields(request));
    assert FindId(e.companies, Int(t.next)) == Some(t.next);
  }

  /** A successful save with an id overwrites the form's fields on the
      loaded row only; no row is added or removed. */
  lemma SaveUpdatesLoadedRow(request: FormRequest, t: Table, loadExec: Exec)
    requires t.Valid()
    requires Truthy(request.Get("id")) && LoadRow(t, request.Get("id"), loadExec).Ok? && FieldErrors(request) == map[]
    ensures var e := SaveSpec(request, t, None, loadExec, Done);
      var k := LoadRow(t, request.Get("id"), loadExec).value.0;
      && e.response.errors == map[]
      && KeyOf(request.Get("id")) == Some(k)
      && e.companies.rows.Keys == t.rows.Keys
      && e.companies.rows[k] == t.rows[k] + FormFields(request)
      && (forall j :: j in t.rows && j != k ==> e.companies.rows[j] == t.rows[j])
  {
  }

  /** The delete block over its inputs: connect, load the company the query
      names, then delete it by the loaded id. */
  function DeleteSpec(query: map<string, Value>, t: Table, connect: Option<string>, loadExec: Exec, writeExec: Exec): Effect
    requires t.Valid()
    requires IsSet(query, "delete")
  {
    var load := LoadRow(t, query["delete"], loadExec);
    if connect.Some? then Fail(ConnectError + connect.value, t)
    else if load.Err? then Fail(Companies.LoadError + load.message, t)
    else
      match writeExec
      case Raised(m) => Fail(Companies.DeleteError + ActionError + m, t)
      case Refused => Effect(Redirect(map[]), t)
      case Done => Effect(Redirect(map[]), Deleted(t, Int(load.value.0)))
  }

  /** The delete succeeds exactly when the connection opens, the named
      company exists, and the statement does not throw; any failure is one
      server message and leaves the table alone. */
  lemma DeleteSucceedsIff(query: map<string, Value>, t: Table, connect: Option<string>, loadExec: Exec, writeExec: Exec)
    requires t.Valid()
    requires IsSet(query, "delete")
    ensures var e := DeleteSpec(query, t, connect, loadExec, writeExec);
      e.response.errors == map[] <==> connect.None? && LoadRow(t, query["delete"], loadExec).Ok? && !writeExec.Raised?
    ensures var e := DeleteSpec(query, t, connect, loadExec, writeExec);
      e.response.errors != map[] ==> e.response.errors.Keys == {"server"} && e.companies == t
  {
    var e := DeleteSpec(query, t, connect, loadExec, writeExec);
    if e.response.errors != map[] {
      assert "server" in e.response.errors;
    }
  }

  /** A delete that runs removes the named row and nothing else, after
      which that id no longer loads. */
  lemma DeleteRemovesNamedRow(query: map<string, Value>, t: Table, loadExec: Exec)
    requires t.Valid()
    requires IsSet(query, "delete") && LoadRow(t, query["delete"], loadExec).Ok?
    ensures var e := DeleteSpec(query, t, None, loadExec, Done);
      var k := KeyOf(query["delete"]).value;
      && k in t.rows
      && e.companies.rows.Keys == t.rows.Keys - {k}
      && (forall j :: j in e.companies.rows ==> e.companies.rows[j] == t.rows[j])
      && LoadRow(e.companies, query["delete"], Done) == Err(NoMatch)
  {
  }

  /** The save block, run on the form: `None` when nothing was submitted. */
  method Save(request: FormRequest, db: Store, connect: Option<string>, loadExec: Exec, writeExec: Exec)
    returns (r: Option<Response>)
    requires db.Valid()
    modifies db
    ensures db.Valid()
    ensures db.contacts == old(db.contacts) && db.emails == old(db.emails)
    ensures !request.HasData() ==> r == None && db.companies == old(db.companies)
    ensures request.HasData() ==>
      var e := SaveSpec(request, old(db.companies), connect, loadExec, writeExec);
      r == Some(e.response) && db.companies == e.companies
  {
    if !request.HasData() {
      return None;
    }
    var errors;
    if connect.Some? {
      errors := map["server" := ConnectError + connect.value];
    } else {
      errors := Attempt(request, db, loadExec, writeExec);
    }
    r := Some(Redirect(errors));
  }

  /** The `try` block of the save once connected, with its `catch`: the
      errors it records. */
  method Attempt(request: FormRequest, db: Store, loadExec: Exec, writeExec: Exec)
    returns (errors: map<string, string>)
    requires db.Valid()
    modifies db
    ensures db.Valid()
    ensures db.contacts == old(db.contacts) && db.emails == old(db.emails)
    ensures var e := SaveSpec(request, old(db.companies), None, loadExec, writeExec);
      errors == e.response.errors && db.companies == e.companies
  {
    ghost var t := db.companies;
    ghost var id := request.Get("id");
    var loaded := Prepare(request, db, loadExec);
    if loaded.Err? {
      return map["server" := loaded.message];
    }
    ghost var key := if Truthy(id) then Some(LoadRow(t, id, loadExec).value.0) else None;
    errors := Check(loaded.value, key, writeExec);
  }

  /** The rest of the `try` block on the prepared company: validate it, and
      write it when it is valid. */
  method Check(company: Companies.Company, ghost key: Option<nat>, writeExec: Exec) returns (errors: map<string, string>)
    requires company.db.Valid()
    requires key.Some? ==> company.id == Int(key.value) && key.value in company.db.companies.rows
    requires key.None? ==> company.id == Null
    modifies company.db
    ensures company.db.Valid()
    ensures company.db.contacts == old(company.db.contacts) && company.db.emails == old(company.db.emails)
    ensures var e := CheckedWrite(Companies.CompanyErrors(company.name, company.address, company.contactId),
                                  map["name" := company.name, "address" := company.address, "contact_id" := company.contactId],
                                  old(company.db.companies), key, writeExec);
      errors == e.response.errors && company.db.companies == e.companies
  {
    var verdict := company.ValidateCompany(company);
    if verdict.Invalid? {
      return verdict.errors["server" := InvalidForm];
    }
    var outcome := Write(company, key, writeExec);
    errors := if outcome.Throw? then map["server" := outcome.message] else map[];
  }

  /** The company the save works on: loaded when the form's id is truthy,
      empty otherwise, with the form's three fields copied onto it. */
  method Prepare(request: FormRequest, db: Store, loadExec: Exec) returns (r: Result<Companies.Company>)
    modifies db`prepared
    ensures var id := request.Get("id");
      && (r.Ok? <==> !Truthy(id) || LoadRow(db.companies, id, loadExec).Ok?)
      && (r.Err? ==> r.message == Companies.LoadError + LoadRow(db.companies, id, loadExec).message)
    ensures r.Ok? ==>
      && fresh(r.value) && r.value.db == db
      && r.value.name == request.Get("name") && r.value.address == request.Get("address")
      && r.value.contactId == request.Get("contact_id")
      && (Truthy(request.Get("id")) ==> r.value.id == Int(LoadRow(db.companies, request.Get("id"), loadExec).value.0))
      && (!Truthy(request.Get("id")) ==> r.value.id == Null)
  {
    if Truthy(request.Get("id")) {
      r := Companies.Company.New(db, request.Get("id"), loadExec);
    } else {
      r := Companies.Company.New(db, Null, loadExec);
    }
    if r.Ok? {
      var company := r.value;
      company.name := request.Get("name");
      company.address := request.Get("address");
      company.contactId := request.Get("contact_id");
    }
  }

  /** The write step on a validated company: `updateCompany` when it has a
      (truthy) id, `createCompany` otherwise; a thrown exception becomes the
      outcome. */
  method Write(company: Companies.Company, ghost key: Option<nat>, writeExec: Exec) returns (outcome: Outcome)
    requires company.db.Valid()
    requires key.Some? ==> company.id == Int(key.value) && key.value in company.db.companies.rows
    requires key.None? ==> company.id == Null
    modifies company.db
    ensures company.db.Valid()
    ensures company.db.contacts == old(company.db.contacts) && company.db.emails == old(company.db.emails)
    ensures var e := WriteSpec(map["name" := company.name, "address" := company.address, "contact_id" := company.contactId],
                               old(company.db.companies), key, writeExec);
      && company.db.companies == e.companies
      && (outcome.Pass? ==> e.response.errors == map[])
      && (outcome.Throw? ==> e.response.errors == map["server" := outcome.message])
  {
    outcome := Pass;
    if Truthy(company.id) {
      var updated := company.UpdateCompany(company, writeExec);
      if updated.Err? {
        outcome := Throw(updated.message);
      }
    } else {
      outcome := company.CreateCompany(company, writeExec);
    }
  }

  /** The delete block, run on the query string: `None` unless `delete` is set. */
  method Delete(query: map<string, Value>, db: Store, connect: Option<string>, loadExec: Exec, writeExec: Exec)
    returns (r: Option<Response>)
    requires db.Valid()
    modifies db
    ensures db.Valid()
    ensures db.contacts == old(db.contacts) && db.emails == old(db.emails)
    ensures !IsSet(query, "delete") ==> r == None && db.companies == old(db.companies)
    ensures IsSet(query, "delete") ==>
      var e := DeleteSpec(query, old(db.companies), connect, loadExec, writeExec);
      r == Some(e.response) && db.companies == e.companies
  {
    if !IsSet(query, "delete") {
      return None;
    }
    var errors: map<string, string> := map[];
    var outcome := Pass;
    if connect.Some? {
      outcome := Throw(ConnectError + connect.value);
    } else {
      var loaded := Companies.Company.New(db, query["delete"], loadExec);
      if loaded.Err? {
        outcome := Throw(loaded.message);
      } else {
        var company := loaded.value;
        var deleted := company.DeleteCompany(company.id, writeExec);
        if deleted.Err? {
          outcome := Throw(deleted.message);
        }
      }
    }
    if outcome.Throw? {
      errors := errors["server" := outcome.message];
    }
    r := Some(Redirect(errors));
  }
}
