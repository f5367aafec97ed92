/** EmailsController.php: the script block that adds an e-mail address to a
    contact from the form, and the one that deletes an address named in the
    query string. Exceptions are caught into `$errors["server"]`; both
    blocks redirect to a contact's edit page.

    `AddSpec` and `DeleteSpec` state what a block does over the values it
    reads; `Add` and `Delete` go through the Contact and Email objects and
    the store and are proved to agree with them. `filter_var` is the input
    `wellFormed`; each statement's driver outcome is an input too. */
module EmailsController {
  import opened Php
  import opened Database
  import opened FormRequests
  import Contacts
  import Emails

  const NoContactId := "Nem érkezett kontakt azonosító!"
  const NoAddress := "Nem érkezett e-mail cím!"
  const InvalidForm := "Érvénytelen, vagy hiányzó adatok az űrlapon!"
  const EditPage := "/contacts.php?edit="
  const ListPage := "/contacts.php"
  const SuccessFlag := "&success=true"

  /** What one block leaves behind: its response, and the emails table. */
  datatype Effect = Effect(response: Response, emails: Table)

  /** The add block's redirect to the edit page of the contact printed as
      `ref`, flagged as a success exactly when no error was recorded. */
  function BackTo(errors: map<string, string>, ref: string): (r: Response)
    ensures r.errors == errors
    ensures errors == map[] ==> r.location == EditPage + ref + SuccessFlag
    ensures errors != map[] ==> r.location == EditPage + ref
  {
    Response(errors, EditPage + ref + if errors == map[] then SuccessFlag else "")
  }

  /** An add that ended in an exception, the table as it was. */
  function Fail(message: string, ref: string, t: Table): (e: Effect)
    ensures e.response.errors == map["server" := message] && e.emails == t
    ensures e.response.errors != map[]
  {
    assert "server" in map["server" := message];
    Effect(BackTo(map["server" := message], ref), t)
  }

  /** Whether the uniqueness query finds no row with this address (a refused
      query fetches nothing). */
  predicate Unique(t: Table, address: Value, uniqueExec: Exec) {
    uniqueExec.Refused? || !Emails.Taken(t, address)
  }

  /** The add block over its inputs: connect, require a contact id and load
      that contact, require an address, validate it, insert it. Until a
      contact is loaded `$contact->id` is undefined and prints as "". */
  function AddSpec(request: FormRequest, contacts: Table, t: Table, wellFormed: Value -> bool, connect: Option<string>,
                   loadExec: Exec, uniqueExec: Exec, writeExec: Exec): Effect
    requires t.Valid()
  {
    var owner := request.Get("contact_id");
    var load := LoadRow(contacts, owner, loadExec);
    var address := request.Get("email");
    if connect.Some? then Fail(ConnectError + connect.value, "", t)
    else if !Truthy(owner) then Fail(NoContactId, "", t)
    else if load.Err? then Fail(Contacts.LoadError + load.message, "", t)
    else AddressSpec(address, load.value.0, t, wellFormed, uniqueExec, writeExec)
  }

  /** The add once contact `k` is loaded: require an address, validate it
      with `k` as its owner, insert it; every outcome leads back to that
      contact's edit page. */
  function AddressSpec(address: Value, k: nat, t: Table, wellFormed: Value -> bool, uniqueExec: Exec, writeExec: Exec): (e: Effect)
    requires t.Valid()
    ensures e.response == BackTo(e.response.errors, ToStr(Int(k)))
  {
    var ref := ToStr(Int(k));
    if !Truthy(address) then Fail(NoAddress, ref, t)
    else if uniqueExec.Raised? then Fail(Emails.UniqueError + SelectError + uniqueExec.message, ref, t)
    else
      var fields := Emails.EmailErrors(wellFormed(address), Unique(t, address, uniqueExec), Int(k));
      if fields != map[] then Effect(BackTo(fields["server" := InvalidForm], ref), t)
      else
        match writeExec
        case Raised(m) => Fail(Emails.CreateError + InsertError + m, ref, t)
        case Refused => Fail(Emails.CreateError + InsertFailed, ref, t)
        case Done => Effect(BackTo(map[], ref), Appended(t, map["email" := address, "contact_id" := Int(k)]))
  }

  /** The add succeeds exactly when the connection opens, the form names a
      stored contact, carries a well-formed address not stored yet, the
      uniqueness query does not throw, and the insert reports its row. */
  lemma AddSucceedsIff(request: FormRequest, contacts: Table, t: Table, wellFormed: Value -> bool, connect: Option<string>,
                       loadExec: Exec, uniqueExec: Exec, writeExec: Exec)
    requires contacts.Valid() && t.Valid()
    ensures AddSpec(request, contacts, t, wellFormed, connect, loadExec, uniqueExec, writeExec).response.errors == map[]
        <==> && connect.None? && Truthy(request.Get("contact_id"))
             && LoadRow(contacts, request.Get("contact_id"), loadExec).Ok?
             && Truthy(request.Get("email")) && !uniqueExec.Raised?
             && wellFormed(request.Get("email")) && Unique(t, request.Get("email"), uniqueExec)
             && writeExec.Done?
  {
    var owner := request.Get("contact_id");
    var address := request.Get("email");
    var load := LoadRow(contacts, owner, loadExec);
    if connect.None? && Truthy(owner) && load.Ok? && Truthy(address) && !uniqueExec.Raised? {
      var fields := Emails.EmailErrors(wellFormed(address), Unique(t, address, uniqueExec), Int(load.value.0));
      Emails.EmailValidIff(wellFormed(address), Unique(t, address, uniqueExec), Int(load.value.0));
      if fields != map[] {
        assert "server" in fields["server" := InvalidForm];
      }
    }
  }

  /** The owner check of validateEmail never fires here: the address is
      always given the loaded contact's id, and stored ids start at 1. */
  lemma AddNeverReportsMissingOwner(request: FormRequest, contacts: Table, t: Table, wellFormed: Value -> bool,
                                    connect: Option<string>, loadExec: Exec, uniqueExec: Exec, writeExec: Exec)
    requires contacts.Valid() && t.Valid()
    ensures var errors := AddSpec(request, contacts, t, wellFormed, connect, loadExec, uniqueExec, writeExec).response.errors;
      "email" in errors ==> errors["email"] != Emails.NoContact
  {
    var owner := request.Get("contact_id");
    var load := LoadRow(contacts, owner, loadExec);
    if connect.None? && Truthy(owner) && load.Ok? {
      assert load.value.0 in contacts.rows;
      OwnerNeverMissing(request.Get("email"), load.value.0, t, wellFormed, uniqueExec, writeExec);
    } else {
      assert AddSpec(request, contacts, t, wellFormed, connect, loadExec, uniqueExec, writeExec).response.errors.Keys == {"server"};
    }
  }

  /** With a stored contact as owner the address's errors never name a missing owner. */
  lemma OwnerNeverMissing(address: Value, k: nat, t: Table, wellFormed: Value -> bool, uniqueExec: Exec, writeExec: Exec)
    requires t.Valid() && k >= 1
    ensures var errors := AddressSpec(address, k, t, wellFormed, uniqueExec, writeExec).response.errors;
      "email" in errors ==> errors["email"] != Emails.NoContact
  {
    var fields := Emails.EmailErrors(wellFormed(address), Unique(t, address, uniqueExec), Int(k));
    assert !Empty(Int(k));
    assert "email" in fields ==> fields["email"] != Emails.NoContact;
  }

  /** A failed add records a server message and stores nothing. */
  lemma AddFailureStoresNothing(request: FormRequest, contacts: Table, t: Table, wellFormed: Value -> bool,
                                connect: Option<string>, loadExec: Exec, uniqueExec: Exec, writeExec: Exec)
    requires t.Valid()
    ensures var e := AddSpec(request, contacts, t, wellFormed, connect, loadExec, uniqueExec, writeExec);
      e.response.errors != map[] ==> "server" in e.response.errors && e.emails == t
  {
  }

  /** Once a contact is loaded, the redirect names it, and the printed id
      opens the same contact again; before that the id part is empty. */
  lemma AddRedirectsToOwner(request: FormRequest, contacts: Table, t: Table, wellFormed: Value -> bool,
                            connect: Option<string>, loadExec: Exec, uniqueExec: Exec, writeExec: Exec)
    requires t.Valid()
    ensures var e := AddSpec(request, contacts, t, wellFormed, connect, loadExec, uniqueExec, writeExec);
      var load := LoadRow(contacts, request.Get("contact_id"), loadExec);
      && (connect.None? && Truthy(request.Get("contact_id")) && load.Ok? ==>
            var k := load.value.0;
            && (e.response.location == EditPage + Decimal(k) + SuccessFlag || e.response.location == EditPage + Decimal(k))
            && KeyOf(Str(Decimal(k))) == Some(k))
      && (!(connect.None? && Truthy(request.Get("contact_id")) && load.Ok?) ==> e.response.location == EditPage)
  {
    var load := LoadRow(contacts, request.Get("contact_id"), loadExec);
    if connect.None? && Truthy(request.Get("contact_id")) && load.Ok? {
      PrintedKey(load.value.0);
    } else {
      assert EditPage + "" == EditPage;
    }
  }

  /** A successful add stores the address under a fresh id with the loaded
      contact as owner; the same address added again is then a duplicate. */
  lemma AddThenDuplicate(request: FormRequest, contacts: Table, t: Table, wellFormed: Value -> bool,
                         loadExec: Exec, uniqueExec: Exec)
    requires contacts.Valid() && t.Valid()
    requires AddSpec(request, contacts, t, wellFormed, None, loadExec, uniqueExec, Done).response.errors == map[]
    ensures var e := AddSpec(request, contacts, t, wellFormed, None, loadExec, uniqueExec, Done);
      var k := LoadRow(contacts, request.Get("contact_id"), loadExec).value.0;
      && e.emails.rows.Keys == t.rows.Keys + {t.next}
      && e.emails.rows[t.next] == map["email" := request.Get("email"), "contact_id" := Int(k)]
      && Emails.Taken(e.emails, request.Get("email"))
      && AddSpec(request, contacts, e.emails, wellFormed, None, loadExec, Done, Done).response.errors
         == map["email" := Emails.Duplicate, "server" := InvalidForm]
  {
    AddSucceedsIff(request, contacts, t, wellFormed, None, loadExec, uniqueExec, Done);
    var e := AddSpec(request, contacts, t, wellFormed, None, loadExec, uniqueExec, Done);
    assert Col(e.emails.rows[t.next], "email") == request.Get("email");
    var k := LoadRow(contacts, request.Get("contact_id"), loadExec).value.0;
    assert k in contacts.rows;
    assert Emails.Taken(e.emails, request.Get("email"));
    InvalidKeys(request, contacts, e.emails, wellFormed, loadExec, Done, Done);
  }

  /** Without a truthy contact id the block stops at the owner check,
      whatever the form's address holds: one server message, no insert, and
      the bare edit page, since no contact was loaded to print. */
  lemma NoOwner(request: FormRequest, contacts: Table, t: Table, wellFormed: Value -> bool,
                loadExec: Exec, uniqueExec: Exec, writeExec: Exec)
    requires t.Valid()
    requires !Truthy(request.Get("contact_id"))
    ensures var e := AddSpec(request, contacts, t, wellFormed, None, loadExec, uniqueExec, writeExec);
      e.response == Response(map["server" := NoContactId], EditPage) && e.emails == t
  {
  }

  /** With the contact loaded but no truthy address, the block stops at the
      address check and goes back to that contact's page. */
  lemma NoAddressGiven(request: FormRequest, contacts: Table, t: Table, wellFormed: Value -> bool,
                       loadExec: Exec, uniqueExec: Exec, writeExec: Exec)
    requires t.Valid()
    requires Truthy(request.Get("contact_id")) && LoadRow(contacts, request.Get("contact_id"), loadExec).Ok?
    requires !Truthy(request.Get("email"))
    ensures var e := AddSpec(request, contacts, t, wellFormed, None, loadExec, uniqueExec, writeExec);
      var k := LoadRow(contacts, request.Get("contact_id"), loadExec).value.0;
      e.response == Response(map["server" := NoAddress], EditPage + ToStr(Int(k))) && e.emails == t
  {
  }

  /** An address that fails validation is reported under "email", beside the
      invalid-form message under "server", and nothing is stored: a duplicate
      is reported as such, otherwise the bad format. */
  lemma InvalidKeys(request: FormRequest, contacts: Table, t: Table, wellFormed: Value -> bool,
                    loadExec: Exec, uniqueExec: Exec, writeExec: Exec)
    requires contacts.Valid() && t.Valid()
    requires Truthy(request.Get("contact_id")) && LoadRow(contacts, request.Get("contact_id"), loadExec).Ok?
    requires Truthy(request.Get("email")) && !uniqueExec.Raised?
    requires !(wellFormed(request.Get("email")) && Unique(t, request.Get("email"), uniqueExec))
    ensures var e := AddSpec(request, contacts, t, wellFormed, None, loadExec, uniqueExec, writeExec);
      var errors := e.response.errors;
      && errors.Keys == {"email", "server"}
      && errors["server"] == InvalidForm
      && errors["email"] == (if Unique(t, request.Get("email"), uniqueExec) then Emails.BadFormat else Emails.Duplicate)
      && e.emails == t
  {
    var k := LoadRow(contacts, request.Get("contact_id"), loadExec).value.0;
    assert k in contacts.rows;
    AddressInvalid(request.Get("email"), k, t, wellFormed, uniqueExec, writeExec);
  }

  /** `InvalidKeys` once the contact `k` is loaded. */
  lemma AddressInvalid(address: Value, k: nat, t: Table, wellFormed: Value -> bool, uniqueExec: Exec, writeExec: Exec)
    requires t.Valid() && k >= 1
    requires Truthy(address) && !uniqueExec.Raised? && !(wellFormed(address) && Unique(t, address, uniqueExec))
    ensures var e := AddressSpec(address, k, t, wellFormed, uniqueExec, writeExec);
      var errors := e.response.errors;
      && errors.Keys == {"email", "server"}
      && errors["server"] == InvalidForm
      && errors["email"] == (if Unique(t, address, uniqueExec) then Emails.BadFormat else Emails.Duplicate)
      && e.emails == t
  {
    assert !Empty(Int(k));
    var fields := Emails.EmailErrors(wellFormed(address), Unique(t, address, uniqueExec), Int(k));
    assert fields == map["email" := if Unique(t, address, uniqueExec) then Emails.BadFormat else Emails.Duplicate];
    assert "email" in fields;
  }

  /** The delete block over its inputs: connect, load the address the query
      names, delete it by its loaded id; then back to the contact named by
      the query's `contactId`, or to the list after an error. */
  function DeleteSpec(query: map<string, Value>, t: Table, connect: Option<string>, loadExec: Exec, writeExec: Exec): Effect
    requires t.Valid()
    requires IsSet(query, "deleteEmail")
  {
    var load := LoadRow(t, query["deleteEmail"], loadExec);
    var done := Response(map[], EditPage + ToStr(Index(query, "contactId")) + SuccessFlag);
    if connect.Some? then DeleteFail(ConnectError + connect.value, t)
    else if load.Err? then DeleteFail(Emails.LoadError + load.message, t)
    else
      match writeExec
      case Raised(m) => DeleteFail(Emails.DeleteError + ActionError + m, t)
      case Refused => Effect(done, t)
      case Done => Effect(done, Deleted(t, Int(load.value.0)))
  }

  /** A delete that ended in an exception: back to the list, the table as it was. */
  function DeleteFail(message: string, t: Table): (e: Effect)
    ensures e.response.errors == map["server" := message] && e.emails == t
    ensures e.response.errors != map[] && e.response.location == ListPage
  {
    assert "server" in map["server" := message];
    Effect(Response(map["server" := message], ListPage), t)
  }

  /** The delete succeeds exactly when the connection opens, the named
      address exists, and the statement does not throw; a failure is one
      server message, leads to the list and keeps the table. */
  lemma DeleteSucceedsIff(query: map<string, Value>, t: Table, connect: Option<string>, loadExec: Exec, writeExec: Exec)
    requires t.Valid()
    requires IsSet(query, "deleteEmail")
    ensures var e := DeleteSpec(query, t, connect, loadExec, writeExec);
      e.response.errors == map[] <==> connect.None? && LoadRow(t, query["deleteEmail"], loadExec).Ok? && !writeExec.Raised?
    ensures var e := DeleteSpec(query, t, connect, loadExec, writeExec);
      e.response.errors != map[] ==> e.response.errors.Keys == {"server"} && e.response.location == ListPage && e.emails == t
  {
    var e := DeleteSpec(query, t, connect, loadExec, writeExec);
    if !(connect.None? && LoadRow(t, query["deleteEmail"], loadExec).Ok? && !writeExec.Raised?) {
      assert "server" in e.response.errors;
    }
  }

  /** A successful delete goes back to the edit page of the contact the
      query's `contactId` names, flagged as a success; the table loses the
      named address, or stays as it was when the statement is refused. */
  lemma DeleteGoesToContact(query: map<string, Value>, t: Table, loadExec: Exec, writeExec: Exec)
    requires t.Valid()
    requires IsSet(query, "deleteEmail") && LoadRow(t, query["deleteEmail"], loadExec).Ok? && !writeExec.Raised?
    ensures var e := DeleteSpec(query, t, None, loadExec, writeExec);
      && e.response == Response(map[], EditPage + ToStr(Index(query, "contactId")) + SuccessFlag)
      && e.emails == (if writeExec.Done? then Deleted(t, query["deleteEmail"]) else t)
  {
  }

  /** A delete that runs removes the named address and nothing else, after
      which that id no longer loads. */
  lemma DeleteRemovesNamedRow(query: map<string, Value>, t: Table, loadExec: Exec)
    requires t.Valid()
    requires IsSet(query, "deleteEmail") && LoadRow(t, query["deleteEmail"], loadExec).Ok?
    ensures var e := DeleteSpec(query, t, None, loadExec, Done);
      var k := KeyOf(query["deleteEmail"]).value;
      && k in t.rows
      && e.emails.rows.Keys == t.rows.Keys - {k}
      && (forall j :: j in e.emails.rows ==> e.emails.rows[j] == t.rows[j])
      && LoadRow(e.emails, query["deleteEmail"], Done) == Err(NoMatch)
  {
  }

  /** The add block, run on the form: `None` when nothing was submitted. */
  method Add(request: FormRequest, db: Store, wellFormed: Value -> bool, connect: Option<string>,
             loadExec: Exec, uniqueExec: Exec, writeExec: Exec) returns (r: Option<Response>)
    requires db.Valid()
    modifies db
    ensures db.Valid()
    ensures db.companies == old(db.companies) && db.contacts == old(db.contacts)
    ensures !request.HasData() ==> r == None && db.emails == old(db.emails)
    ensures request.HasData() ==>
      var e := AddSpec(request, old(db.contacts), old(db.emails), wellFormed, connect, loadExec, uniqueExec, writeExec);
      r == Some(e.response) && db.emails == e.emails
  {
    if !request.HasData() {
      return None;
    }
    var errors, ref;
    if connect.Some? {
      errors, ref := map["server" := ConnectError + connect.value], "";
    } else {
      errors, ref := Attempt(request, db, wellFormed, loadExec, uniqueExec, writeExec);
    }
    r := Some(BackTo(errors, ref));
  }

  /** The `try` block of the add once connected, with its `catch`: the
      errors it records and what `$contact->id` prints as afterwards. */
  method Attempt(request: FormRequest, db: Store, wellFormed: Value -> bool, loadExec: Exec, uniqueExec: Exec, writeExec: Exec)
    returns (errors: map<string, string>, ref: string)
    requires db.Valid()
    modifies db
    ensures db.Valid()
    ensures db.companies == old(db.companies) && db.contacts == old(db.contacts)
    ensures var e := AddSpec(request, old(db.contacts), old(db.emails), wellFormed, None, loadExec, uniqueExec, writeExec);
      BackTo(errors, ref) == e.response && db.emails == e.emails
  {
    ghost var contacts, t := db.contacts, db.emails;
    var owner := request.Get("contact_id");
    if !Truthy(owner) {
      return map["server" := NoContactId], "";
    }
    var loaded := Contacts.Contact.New(db, owner, loadExec);
    if loaded.Err? {
      return map["server" := loaded.message], "";
    }
    var contact := loaded.value;
    ref := ToStr(contact.id);
    ghost var k := LoadRow(contacts, owner, loadExec).value.0;
    errors := AddAddress(db, request.Get("email"), contact.id, k, wellFormed, uniqueExec, writeExec);
  }

  /** The rest of the `try` block once the contact is loaded: the address is
      checked, validated and inserted with the contact's id as its owner. */
  method AddAddress(db: Store, address: Value, contactId: Value, ghost k: nat, wellFormed: Value -> bool,
                    uniqueExec: Exec, writeExec: Exec) returns (errors: map<string, string>)
    requires db.Valid() && contactId == Int(k)
    modifies db
    ensures db.Valid()
    ensures db.companies == old(db.companies) && db.contacts == old(db.contacts)
    ensures var e := AddressSpec(address, k, old(db.emails), wellFormed, uniqueExec, writeExec);
      errors == e.response.errors && db.emails == e.emails
  {
    if !Truthy(address) {
      return map["server" := NoAddress];
    }
    var email := new Emails.Email(db);
    email.email := address;
    email.contactId := contactId;
    errors := Submit(email, k, wellFormed, uniqueExec, writeExec);
  }

  /** validateEmail on the new address object, then createEmail when it
      passes; a thrown exception becomes the server message. */
  method Submit(email: Emails.Email, ghost k: nat, wellFormed: Value -> bool, uniqueExec: Exec, writeExec: Exec)
    returns (errors: map<string, string>)
    requires email.db.Valid() && email.contactId == Int(k) && Truthy(email.email)
    modifies email.db
    ensures email.db.Valid()
    ensures email.db.companies == old(email.db.companies) && email.db.contacts == old(email.db.contacts)
    ensures var e := AddressSpec(email.email, k, old(email.db.emails), wellFormed, uniqueExec, writeExec);
      errors == e.response.errors && email.db.emails == e.emails
  {
    ghost var t := email.db.emails;
    var verdict := email.ValidateEmail(email, wellFormed, uniqueExec);
    if verdict.Err? {
      return map["server" := verdict.message];
    }
    assert verdict.value == VerdictOf(Emails.EmailErrors(wellFormed(email.email), Unique(t, email.email, uniqueExec), Int(k)));
    if verdict.value.Invalid? {
      return verdict.value.errors["server" := InvalidForm];
    }
    var created := email.CreateEmail(email, writeExec);
    errors := if created.Throw? then map["server" := created.message] else map[];
  }

  /** The delete block, run on the query string: `None` unless `deleteEmail` is set. */
  method Delete(query: map<string, Value>, db: Store, connect: Option<string>, loadExec: Exec, writeExec: Exec)
    returns (r: Option<Response>)
    requires db.Valid()
    modifies db
    ensures db.Valid()
    ensures db.companies == old(db.companies) && db.contacts == old(db.contacts)
    ensures !IsSet(query, "deleteEmail") ==> r == None && db.emails == old(db.emails)
    ensures IsSet(query, "deleteEmail") ==>
      var e := DeleteSpec(query, old(db.emails), connect, loadExec, writeExec);
      r == Some(e.response) && db.emails == e.emails
  {
    if !IsSet(query, "deleteEmail") {
      return None;
    }
    var errors: map<string, string> := map[];
    var outcome := Pass;
    if connect.Some? {
      outcome := Throw(ConnectError + connect.value);
    } else {
      var loaded := Emails.Email.New(db, query["deleteEmail"], loadExec);
      if loaded.Err? {
        outcome := Throw(loaded.message);
      } else {
        var email := loaded.value;
        var deleted := email.DeleteEmail(email.id, writeExec);
        if deleted.Err? {
          outcome := Throw(deleted.message);
        }
      }
    }
    if outcome.Throw? {
      errors := errors["server" := outcome.message];
      assert "server" in errors;
    }
    if errors != map[] {
      r := Some(Response(errors, ListPage));
    } else {
      r := Some(Response(errors, EditPage + ToStr(Index(query, "contactId")) + SuccessFlag));
    }
  }
}
