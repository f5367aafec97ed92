/** Contact.php: a contact object bound to the database, loaded by id or
    made empty, written back with create/update/delete, checked by
    validateContact. */
module Contacts {
  import opened Php
  import opened Database

  const LoadError := "Hiba a kontakt adat betöltésekor: "
  const CreateError := "Hiba a kontakt létrehozása során: "
  const UpdateError := "Hiba a kontakt frissítésekor: "
  const DeleteError := "Hiba a kontakt törlésekor: "

  const SelectQuery := "SELECT id, name, phone, address FROM contacts WHERE id = :id"
  const UpdateQuery := "UPDATE contacts SET name = :name, phone = :phone, address = :address WHERE id = :id"
  const DeleteQuery := "DELETE FROM contacts WHERE id = :id"

  /** validateContact's message for each required field. */
  const NameRequired := "A név megadása kötelező."
  const PhoneRequired := "A telefonszám megadása kötelező."
  const AddressRequired := "A cím megadása kötelező."
  const Messages: map<string, string> := map[
    "name" := NameRequired,
    "phone" := PhoneRequired,
    "address" := AddressRequired]

  /** The data createContact and updateContact bind, in order. */
  function Columns(name: Value, phone: Value, address: Value): (a: Assoc)
    ensures KeysOf(a) == ["name", "phone", "address"]
    ensures ToRecord(a) == map["name" := name, "phone" := phone, "address" := address]
  {
    var a: Assoc := [("name", name), ("phone", phone), ("address", address)];
    assert KeysOf(a) == ["name", "phone", "address"];
    assert a[0].0 in ToRecord(a) && a[1].0 in ToRecord(a) && a[2].0 in ToRecord(a);
    a
  }

  /** The errors validateContact reports for these field values. */
  function ContactErrors(name: Value, phone: Value, address: Value): map<string, string> {
    Require(Require(Require(map[], "name", name, NameRequired), "phone", phone, PhoneRequired), "address", address, AddressRequired)
  }

  /** validateContact accepts exactly when name, phone and address are all non-empty. */
  lemma ContactValidIff(name: Value, phone: Value, address: Value)
    ensures VerdictOf(ContactErrors(name, phone, address)).Valid?
        <==> !Empty(name) && !Empty(phone) && !Empty(address)
  {
  }

  /** On failure the error keys are exactly the empty fields, each with its message. */
  lemma ContactErrorKeys(name: Value, phone: Value, address: Value)
    ensures ContactErrors(name, phone, address).Keys
         == (if Empty(name) then {"name"} else {})
          + (if Empty(phone) then {"phone"} else {})
          + (if Empty(address) then {"address"} else {})
    ensures forall f :: f in ContactErrors(name, phone, address) ==> ContactErrors(name, phone, address)[f] == Messages[f]
  {
  }

  class Contact {
    const db: Store
    var id: Value
    var name: Value
    var phone: Value
    var address: Value

    /** `new Contact($db, null)`: every field null. */
    constructor (db: Store)
      ensures this.db == db
      ensures id == Null && name == Null && phone == Null && address == Null
    {
      this.db := db;
      id, name, phone, address := Null, Null, Null, Null;
    }

    /** `new Contact($db, $id)`: a null id gives an empty contact; any other
        id loads the row, and a failed load throws. */
    static method New(db: Store, id: Value, exec: Exec) returns (r: Result<Contact>)
      modifies db`prepared
      ensures r.Ok? ==> fresh(r.value) && r.value.db == db
      ensures id == Null ==> db.prepared == old(db.prepared) && r.Ok?
      ensures id == Null && r.Ok? ==>
        r.value.id == Null && r.value.name == Null && r.value.phone == Null && r.value.address == Null
      ensures id != Null ==> db.prepared == old(db.prepared) + [SelectQuery]
      ensures id != Null ==> (r.Ok? <==> LoadRow(db.contacts, id, exec).Ok?)
      ensures id != Null && r.Err? ==> r.message == LoadError + LoadRow(db.contacts, id, exec).message
      ensures id != Null && r.Ok? ==>
        var (k, rec) := LoadRow(db.contacts, id, exec).value;
        r.value.id == Int(k) && r.value.name == Col(rec, "name")
        && r.value.phone == Col(rec, "phone") && r.value.address == Col(rec, "address")
    {
      var c := new Contact(db);
      if id == Null {
        r := Ok(c);
      } else {
        var loaded := c.LoadContactData(id, exec);
        r := if loaded.Pass? then Ok(c) else Err(loaded.message);
      }
    }

    /** `loadContactData($id)`: fills the fields from the fetched row, or
        throws "no match" or the driver's error, behind the load prefix. */
    method LoadContactData(key: Value, exec: Exec) returns (r: Outcome)
      modifies this, db`prepared
      ensures db.prepared == old(db.prepared) + [SelectQuery]
      ensures r.Throw? <==> LoadRow(db.contacts, key, exec).Err?
      ensures r.Throw? ==> r.message == LoadError + LoadRow(db.contacts, key, exec).message
      ensures r.Throw? ==> id == old(id) && name == old(name) && phone == old(phone) && address == old(address)
      ensures r.Pass? ==>
        var (k, rec) := LoadRow(db.contacts, key, exec).value;
        id == Int(k) && name == Col(rec, "name") && phone == Col(rec, "phone") && address == Col(rec, "address")
    {
      var result := db.SelectById(Contacts, SelectQuery, key, exec);
      if result.Err? {
        r := Throw(LoadError + result.message);
      } else if |result.value| > 0 {
        var row := result.value[0];
        id := Col(row, "id");
        name := Col(row, "name");
        phone := Col(row, "phone");
        address := Col(row, "address");
        r := Pass;
      } else {
        r := Throw(LoadError + NoMatch);
      }
    }

    /** `createContact($contact)`: inserts exactly name, phone and address;
        true when a row was inserted, otherwise throws. */
    method CreateContact(contact: Contact, exec: Exec) returns (r: Outcome)
      requires db.Valid()
      modifies db
      ensures db.Valid()
      ensures db.prepared == old(db.prepared) + [InsertQuery("contacts", ["name", "phone", "address"])]
      ensures db.companies == old(db.companies) && db.emails == old(db.emails)
      ensures exec.Done? ==>
        && r == Pass
        && db.contacts == Appended(old(db.contacts),
             map["name" := contact.name, "phone" := contact.phone, "address" := contact.address])
      ensures exec.Refused? ==> r == Throw(CreateError + InsertFailed) && db.contacts == old(db.contacts)
      ensures exec.Raised? ==> r == Throw(CreateError + InsertError + exec.message) && db.contacts == old(db.contacts)
    {
      var data := Columns(contact.GetName(), contact.GetPhone(), contact.GetAddress());
      assert Contacts.Name() == "contacts";
      var inserted := db.Insert(Contacts, data, exec);
      if inserted.Err? {
        r := Throw(CreateError + inserted.message);
      } else if inserted.value > 0 {
        r := Pass;
      } else {
        r := Throw(CreateError + InsertFailed);
      }
    }

    /** `updateContact($contact)`: overwrites name, phone and address on the
        row with the contact's id only; true iff a row was affected. */
    method UpdateContact(contact: Contact, exec: Exec) returns (r: Result<bool>)
      requires db.Valid()
      modifies db
      ensures db.Valid()
      ensures db.prepared == old(db.prepared) + [UpdateQuery]
      ensures db.companies == old(db.companies) && db.emails == old(db.emails)
      ensures exec.Done? ==>
        && r == Ok(FindId(old(db.contacts), contact.id).Some?)
        && db.contacts == Updated(old(db.contacts), contact.id,
             map["name" := contact.name, "phone" := contact.phone, "address" := contact.address])
      ensures exec.Refused? ==> r == Ok(false) && db.contacts == old(db.contacts)
      ensures exec.Raised? ==> r == Err(UpdateError + ActionError + exec.message) && db.contacts == old(db.contacts)
    {
      var change := UpdateRow(Contacts, contact.GetId(), Columns(contact.GetName(), contact.GetPhone(), contact.GetAddress()));
      var updated := db.Action(UpdateQuery, change, exec);
      if updated.Err? {
        r := Err(UpdateError + updated.message);
      } else {
        r := Ok(updated.value > 0);
      }
    }

    /** `deleteContact($id)`: removes the row with that id only; true iff a row was affected. */
    method DeleteContact(key: Value, exec: Exec) returns (r: Result<bool>)
      requires db.Valid()
      modifies db
      ensures db.Valid()
      ensures db.prepared == old(db.prepared) + [DeleteQuery]
      ensures db.companies == old(db.companies) && db.emails == old(db.emails)
      ensures exec.Done? ==> r == Ok(FindId(old(db.contacts), key).Some?) && db.contacts == Deleted(old(db.contacts), key)
      ensures exec.Refused? ==> r == Ok(false) && db.contacts == old(db.contacts)
      ensures exec.Raised? ==> r == Err(DeleteError + ActionError + exec.message) && db.contacts == old(db.contacts)
    {
      var deleted := db.Action(DeleteQuery, DeleteRow(Contacts, key), exec);
      if deleted.Err? {
        r := Err(DeleteError + deleted.message);
      } else {
        r := Ok(deleted.value > 0);
      }
    }

    method SetId(v: Value)
      modifies this
      ensures GetId() == v
      ensures name == old(name) && phone == old(phone) && address == old(address)
    {
      id := v;
    }

    method SetName(v: Value)
      modifies this
      ensures GetName() == v
      ensures id == old(id) && phone == old(phone) && address == old(address)
    {
      name := v;
    }

    method SetPhone(v: Value)
      modifies this
      ensures GetPhone() == v
      ensures id == old(id) && name == old(name) && address == old(address)
    {
      phone := v;
    }

    method SetAddress(v: Value)
      modifies this
      ensures GetAddress() == v
      ensures id == old(id) && name == old(name) && phone == old(phone)
    {
      address := v;
    }

    function GetId(): Value reads this { id }
    function GetName(): Value reads this { name }
    function GetPhone(): Value reads this { phone }
    function GetAddress(): Value reads this { address }

    /** `validateContact($contact)`: checks the argument's fields one by one,
        adding a message for each empty one; `true` when none was added. */
    method ValidateContact(contact: Contact) returns (r: Verdict)
      ensures r == VerdictOf(ContactErrors(contact.name, contact.phone, contact.address))
    {
      var errors: map<string, string> := map[];
      if Empty(contact.name) {
        errors := errors["name" := NameRequired];
      }
      if Empty(contact.phone) {
        errors := errors["phone" := PhoneRequired];
      }
      if Empty(contact.address) {
        errors := errors["address" := AddressRequired];
      }
      r := if errors == map[] then Valid else Invalid(errors);
    }
  }
}
