/** Company.php: a company object bound to the database, loaded by id or
    made empty, written back with create/update/delete, checked by
    validateCompany. */
module Companies {
  import opened Php
  import opened Database

  const LoadError := "Hiba a cég adat betöltésekor: "
  const CreateError := "Hiba a cég létrehozása során: "
  const UpdateError := "Hiba a cég frissítésekor: "
  const DeleteError := "Hiba a cég törlésekor: "

  const SelectQuery := "SELECT companies.*, contacts.name AS contact_name FROM companies LEFT JOIN contacts ON companies.contact_id = companies.id WHERE companies.id = :id"
  const UpdateQuery := "UPDATE companies SET name = :name, address = :address, contact_id = :contact_id WHERE id = :id"
  const DeleteQuery := "DELETE FROM companies WHERE id = :id"

  /** validateCompany's message for each required field. */
  const NameRequired := "A név megadása kötelező."
  const AddressRequired := "A cím megadása kötelező."
  const ContactRequired := "A kontakt kiválasztása kötelező."
  const Messages: map<string, string> := map[
    "name" := NameRequired,
    "address" := AddressRequired,
    "contact_id" := ContactRequired]

  /** The data createCompany and updateCompany bind, in order. */
  function Columns(name: Value, address: Value, contactId: Value): (a: Assoc)
    ensures KeysOf(a) == ["name", "address", "contact_id"]
    ensures ToRecord(a) == map["name" := name, "address" := address, "contact_id" := contactId]
  {
    var a: Assoc := [("name", name), ("address", address), ("contact_id", contactId)];
    assert KeysOf(a) == ["name", "address", "contact_id"];
    assert a[0].0 in ToRecord(a) && a[1].0 in ToRecord(a) && a[2].0 in ToRecord(a);
    a
  }

  /** The errors validateCompany reports for these field values. */
  function CompanyErrors(name: Value, address: Value, contactId: Value): map<string, string> {
    Require(Require(Require(map[], "name", name, NameRequired), "address", address, AddressRequired), "contact_id", contactId, ContactRequired)
  }

  /** validateCompany accepts exactly when name, address and contact_id are all non-empty. */
  lemma CompanyValidIff(name: Value, address: Value, contactId: Value)
    ensures VerdictOf(CompanyErrors(name, address, contactId)).Valid?
        <==> !Empty(name) && !Empty(address) && !Empty(contactId)
  {
  }

  /** On failure the error keys are exactly the empty fields, each with its message. */
  lemma CompanyErrorKeys(name: Value, address: Value, contactId: Value)
    ensures CompanyErrors(name, address, contactId).Keys
         == (if Empty(name) then {"name"} else {})
          + (if Empty(address) then {"address"} else {})
          + (if Empty(contactId) then {"contact_id"} else {})
    ensures forall f :: f in CompanyErrors(name, address, contactId) ==> CompanyErrors(name, address, contactId)[f] == Messages[f]
  {
  }

  // The contact_name column of the load query

  /** The `contact_name` values the load query's join as written
      (`ON companies.contact_id = companies.id`) can put on the first row for
      company `k`: when the company's contact_id equals its own id every
      contact joins, one of them comes first; otherwise none joins and the
      left join pads the column with null. */
  function JoinedNamesAsWritten(k: nat, rec: Record, contacts: Table): set<Value> {
    if KeyOf(Col(rec, "contact_id")) == Some(k) && contacts.rows != map[] then
      set i | i in contacts.rows :: Col(contacts.rows[i], "name")
    else {Null}
  }

  /** The `contact_name` the join evidently means (`ON companies.contact_id =
      contacts.id`): the name of the company's own contact, if it exists. */
  function JoinedName(rec: Record, contacts: Table): Value {
    match FindId(contacts, Col(rec, "contact_id"))
    case Some(c) => Col(contacts.rows[c], "name")
    case None => Null
  }

  /** As written, a company whose contact is another row than its own id
      never shows a contact name, whatever the contacts table holds: company
      1 with contact 2 named "Anna" loads with a null contact_name. */
  lemma JoinAsWrittenLosesName()
    ensures var contacts := Table(map[2 := map["name" := Str("Anna")]], 3);
      var rec: Record := map["name" := Str("Vista"), "address" := Str("Budapest"), "contact_id" := Int(2)];
      JoinedNamesAsWritten(1, rec, contacts) == {Null} && JoinedName(rec, contacts) == Str("Anna")
  {
    var contacts := Table(map[2 := map["name" := Str("Anna")]], 3);
    var rec: Record := map["name" := Str("Vista"), "address" := Str("Budapest"), "contact_id" := Int(2)];
    assert FindId(contacts, Col(rec, "contact_id")) == Some(2);
  }

  /** The as-written join always offers the first row some name to carry. */
  lemma SomeJoinedName(k: nat, rec: Record, contacts: Table)
    ensures JoinedNamesAsWritten(k, rec, contacts) != {}
  {
    if KeyOf(Col(rec, "contact_id")) == Some(k) && contacts.rows != map[] {
      var i :| i in contacts.rows;
      assert Col(contacts.rows[i], "name") in JoinedNamesAsWritten(k, rec, contacts);
    } else {
      assert Null in JoinedNamesAsWritten(k, rec, contacts);
    }
  }

  /** The corrected join shows the name of the very contact that loading the
      company's contact_id selects, and null when that load finds nothing.
      This pins `JoinedName` to the load by id; how it relates to the join as
      written is `JoinsAgree`. */
  lemma JoinedNameIsLoadedContact(rec: Record, contacts: Table)
    ensures var load := LoadRow(contacts, Col(rec, "contact_id"), Done);
      && (load.Ok? ==> JoinedName(rec, contacts) == Col(load.value.1, "name"))
      && (load.Err? ==> JoinedName(rec, contacts) == Null)
  {
  }

  /** When the two joins agree, for company `k`: the as-written join can show
      the intended name when the company's contact_id is its own id and that
      contact exists (or no contact exists at all), or when the contact_id
      names no stored contact. When every stored contact has a name, these
      are the only cases, so a company whose contact is stored under another
      id never shows its contact's name. */
  lemma JoinsAgree(k: nat, rec: Record, contacts: Table)
    ensures var c := KeyOf(Col(rec, "contact_id"));
      (c == Some(k) && (k in contacts.rows || contacts.rows == map[]))
      || (c != Some(k) && FindId(contacts, Col(rec, "contact_id")).None?)
      ==> JoinedName(rec, contacts) in JoinedNamesAsWritten(k, rec, contacts)
    ensures var c := KeyOf(Col(rec, "contact_id"));
      (forall i :: i in contacts.rows ==> Col(contacts.rows[i], "name") != Null)
      && JoinedName(rec, contacts) in JoinedNamesAsWritten(k, rec, contacts)
      ==> (c == Some(k) && (k in contacts.rows || contacts.rows == map[]))
          || (c != Some(k) && FindId(contacts, Col(rec, "contact_id")).None?)
  {
    var c := KeyOf(Col(rec, "contact_id"));
    if c == Some(k) && k in contacts.rows {
      assert Col(contacts.rows[k], "name") in JoinedNamesAsWritten(k, rec, contacts);
    }
  }

  /** A company record. `contactName` is filled only when loading, from the
      `contact_name` column of the load query's join as written: the engine
      picks which joined row comes first. */
  class Company {
    const db: Store
    var id: Value
    var name: Value
    var address: Value
    var contactId: Value
    var contactName: Value

    /** `new Company($db, null)`: every field null. */
    constructor (db: Store)
      ensures this.db == db
      ensures id == Null && name == Null && address == Null && contactId == Null && contactName == Null
    {
      this.db := db;
      id, name, address, contactId, contactName := Null, Null, Null, Null, Null;
    }

    /** `new Company($db, $id)`: a null id gives an empty company; any other
        id loads the row, and a failed load throws. */
    static method New(db: Store, id: Value, exec: Exec) returns (r: Result<Company>)
      modifies db`prepared
      ensures r.Ok? ==> fresh(r.value) && r.value.db == db
      ensures id == Null ==> db.prepared == old(db.prepared) && r.Ok?
      ensures id == Null && r.Ok? ==>
        r.value.id == Null && r.value.name == Null && r.value.address == Null
        && r.value.contactId == Null && r.value.contactName == Null
      ensures id != Null ==> db.prepared == old(db.prepared) + [SelectQuery]
      ensures id != Null ==> (r.Ok? <==> LoadRow(db.companies, id, exec).Ok?)
      ensures id != Null && r.Err? ==> r.message == LoadError + LoadRow(db.companies, id, exec).message
      ensures id != Null && r.Ok? ==>
        var (k, rec) := LoadRow(db.companies, id, exec).value;
        r.value.id == Int(k) && r.value.name == Col(rec, "name") && r.value.address == Col(rec, "address")
        && r.value.contactId == Col(rec, "contact_id") && r.value.contactName in JoinedNamesAsWritten(k, rec, db.contacts)
    {
      var c := new Company(db);
      if id == Null {
        r := Ok(c);
      } else {
        var loaded := c.LoadCompanyData(id, exec);
        r := if loaded.Pass? then Ok(c) else Err(loaded.message);
      }
    }

    /** `loadCompanyData($id)`: fills the fields from the fetched row, or
        throws "no match" or the driver's error, behind the load prefix. */
    method LoadCompanyData(key: Value, exec: Exec) returns (r: Outcome)
      modifies this, db`prepared
      ensures db.prepared == old(db.prepared) + [SelectQuery]
      ensures r.Throw? <==> LoadRow(db.companies, key, exec).Err?
      ensures r.Throw? ==> r.message == LoadError + LoadRow(db.companies, key, exec).message
      ensures r.Throw? ==>
        id == old(id) && name == old(name) && address == old(address)
        && contactId == old(contactId) && contactName == old(contactName)
      ensures r.Pass? ==>
        var (k, rec) := LoadRow(db.companies, key, exec).value;
        id == Int(k) && name == Col(rec, "name") && address == Col(rec, "address")
        && contactId == Col(rec, "contact_id") && contactName in JoinedNamesAsWritten(k, rec, db.contacts)
    {
      var result := db.SelectById(Companies, SelectQuery, key, exec);
      if result.Err? {
        r := Throw(LoadError + result.message);
      } else if |result.value| > 0 {
        var row := result.value[0];
        id := Col(row, "id");
        name := Col(row, "name");
        address := Col(row, "address");
        contactId := Col(row, "contact_id");
        var own := KeyOf(Col(row, "id"));
        SomeJoinedName(own.value, row, db.contacts);
        // which joined row comes first is the engine's choice
        var joined :| joined in JoinedNamesAsWritten(own.value, row, db.contacts);
        contactName := joined;
        r := Pass;
      } else {
        r := Throw(LoadError + NoMatch);
      }
    }

    /** `createCompany($company)`: inserts exactly name, address and
        contact_id; true when a row was inserted, otherwise throws. */
    method CreateCompany(company: Company, exec: Exec) returns (r: Outcome)
      requires db.Valid()
      modifies db
      ensures db.Valid()
      ensures db.prepared == old(db.prepared) + [InsertQuery("companies", ["name", "address", "contact_id"])]
      ensures db.contacts == old(db.contacts) && db.emails == old(db.emails)
      ensures exec.Done? ==>
        && r == Pass
        && db.companies == Appended(old(db.companies),
             map["name" := company.name, "address" := company.address, "contact_id" := company.contactId])
      ensures exec.Refused? ==> r == Throw(CreateError + InsertFailed) && db.companies == old(db.companies)
      ensures exec.Raised? ==> r == Throw(CreateError + InsertError + exec.message) && db.companies == old(db.companies)
    {
      var data := Columns(company.GetName(), company.GetAddress(), company.GetContactId());
      assert Companies.Name() == "companies";
      var inserted := db.Insert(Companies, data, exec);
      if inserted.Err? {
        r := Throw(CreateError + inserted.message);
      } else if inserted.value > 0 {
        r := Pass;
      } else {
        r := Throw(CreateError + InsertFailed);
      }
    }

    /** `updateCompany($company)`: overwrites name, address and contact_id
        on the row with the company's id only; true iff a row was affected. */
    method UpdateCompany(company: Company, exec: Exec) returns (r: Result<bool>)
      requires db.Valid()
      modifies db
      ensures db.Valid()
      ensures db.prepared == old(db.prepared) + [UpdateQuery]
      ensures db.contacts == old(db.contacts) && db.emails == old(db.emails)
      ensures exec.Done? ==>
        && r == Ok(FindId(old(db.companies), company.id).Some?)
        && db.companies == Updated(old(db.companies), company.id,
             map["name" := company.name, "address" := company.address, "contact_id" := company.contactId])
      ensures exec.Refused? ==> r == Ok(false) && db.companies == old(db.companies)
      ensures exec.Raised? ==> r == Err(UpdateError + ActionError + exec.message) && db.companies == old(db.companies)
    {
      var change := UpdateRow(Companies, company.GetId(), Columns(company.GetName(), company.GetAddress(), company.GetContactId()));
      var updated := db.Action(UpdateQuery, change, exec);
      if updated.Err? {
        r := Err(UpdateError + updated.message);
      } else {
        r := Ok(updated.value > 0);
      }
    }

    /** `deleteCompany($id)`: removes the row with that id only; true iff a row was affected. */
    method DeleteCompany(key: Value, exec: Exec) returns (r: Result<bool>)
      requires db.Valid()
      modifies db
      ensures db.Valid()
      ensures db.prepared == old(db.prepared) + [DeleteQuery]
      ensures db.contacts == old(db.contacts) && db.emails == old(db.emails)
      ensures exec.Done? ==> r == Ok(FindId(old(db.companies), key).Some?) && db.companies == Deleted(old(db.companies), key)
      ensures exec.Refused? ==> r == Ok(false) && db.companies == old(db.companies)
      ensures exec.Raised? ==> r == Err(DeleteError + ActionError + exec.message) && db.companies == old(db.companies)
    {
      var deleted := db.Action(DeleteQuery, DeleteRow(Companies, key), exec);
      if deleted.Err? {
        r := Err(DeleteError + deleted.message);
      } else {
        r := Ok(deleted.value > 0);
      }
    }

    method SetId(v: Value)
      modifies this
      ensures GetId() == v
      ensures name == old(name) && address == old(address) && contactId == old(contactId) && contactName == old(contactName)
    {
      id := v;
    }

    method SetName(v: Value)
      modifies this
      ensures GetName() == v
      ensures id == old(id) && address == old(address) && contactId == old(contactId) && contactName == old(contactName)
    {
      name := v;
    }

    method SetAddress(v: Value)
      modifies this
      ensures GetAddress() == v
      ensures id == old(id) && name == old(name) && contactId == old(contactId) && contactName == old(contactName)
    {
      address := v;
    }

    method SetContactId(v: Value)
      modifies this
      ensures GetContactId() == v
      ensures id == old(id) && name == old(name) && address == old(address) && contactName == old(contactName)
    {
      contactId := v;
    }

    method SetContactName(v: Value)
      modifies this
      ensures GetContactName() == v
      ensures id == old(id) && name == old(name) && address == old(address) && contactId == old(contactId)
    {
      contactName := v;
    }

    function GetId(): Value reads this { id }
    function GetName(): Value reads this { name }
    function GetAddress(): Value reads this { address }
    function GetContactId(): Value reads this { contactId }
    function GetContactName(): Value reads this { contactName }

    /** `validateCompany($company)`: checks the argument's fields one by one,
        adding a message for each empty one; `true` when none was added. */
    method ValidateCompany(company: Company) returns (r: Verdict)
      ensures r == VerdictOf(CompanyErrors(company.name, company.address, company.contactId))
    {
      var errors: map<string, string> := map[];
      if Empty(company.name) {
        errors := errors["name" := NameRequired];
      }
      if Empty(company.address) {
        errors := errors["address" := AddressRequired];
      }
      if Empty(company.contactId) {
        errors := errors["contact_id" := ContactRequired];
      }
      r := if errors == map[] then Valid else Invalid(errors);
    }
  }
}
