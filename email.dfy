/** Email.php: an e-mail address of a contact, bound to the database,
    loaded by id or made empty, written back with create/update/delete,
    checked by validateEmail (format, uniqueness, owner). */
module Emails {
  import opened Php
  import opened Database

  const LoadError := "Hiba az email cím betöltésekor: "
  const CreateError := "Hiba az e-mail cím létrehozása során: "
  const UpdateError := "Hiba az e-mail cím frissítésekor: "
  const DeleteError := "Hiba az e-mail cím törlésekor: "
  const UniqueError := "Hiba a vizsgálat során: "

  const SelectQuery := "SELECT * FROM emails WHERE id = :id"
  const UniqueQuery := "SELECT id FROM emails WHERE email = :email"
  const UpdateQuery := "UPDATE emails SET email = :email, contact_id = :contact_id WHERE id = :id"
  const DeleteQuery := "DELETE FROM emails WHERE id = :id"

  const BadFormat := "Az e-mail cím formátuma helytelen."
  const Duplicate := "Már létezik ilyen e-mail cím a rendszerben."
  const NoContact := "A kontakt kiválasztása kötelező."

  /** The data createEmail and updateEmail bind, in order. */
  function Columns(email: Value, contactId: Value): (a: Assoc)
    ensures KeysOf(a) == ["email", "contact_id"]
    ensures ToRecord(a) == map["email" := email, "contact_id" := contactId]
  {
    var a: Assoc := [("email", email), ("contact_id", contactId)];
    assert KeysOf(a) == ["email", "contact_id"];
    assert a[0].0 in ToRecord(a) && a[1].0 in ToRecord(a);
    a
  }

  /** Whether some stored address equals `v` (SQL `=`, so a null matches nothing). */
  predicate Taken(t: Table, v: Value) {
    exists k :: k in t.rows && v != Null && Col(t.rows[k], "email") == v
  }

  /** The errors of validateEmail, by priority: the three checks all write
      the "email" key, so the last failing one in the code wins. */
  function EmailErrors(wellFormed: bool, unique: bool, contactId: Value): (m: map<string, string>)
    ensures m.Keys <= {"email"}
  {
    if Empty(contactId) then map["email" := NoContact]
    else if !unique then map["email" := Duplicate]
    else if !wellFormed then map["email" := BadFormat]
    else map[]
  }

  /** validateEmail accepts exactly when the address is well formed, not yet
      stored, and the owner is set; otherwise it reports one message. */
  lemma EmailValidIff(wellFormed: bool, unique: bool, contactId: Value)
    ensures VerdictOf(EmailErrors(wellFormed, unique, contactId)).Valid?
        <==> wellFormed && unique && !Empty(contactId)
    ensures !VerdictOf(EmailErrors(wellFormed, unique, contactId)).Valid?
        ==> EmailErrors(wellFormed, unique, contactId).Keys == {"email"}
  {
    if !(wellFormed && unique && !Empty(contactId)) {
      assert "email" in EmailErrors(wellFormed, unique, contactId);
    }
  }

  /** Which message is reported when several checks fail. */
  lemma EmailErrorPriority(wellFormed: bool, unique: bool, contactId: Value)
    ensures Empty(contactId) ==> EmailErrors(wellFormed, unique, contactId)["email"] == NoContact
    ensures !Empty(contactId) && !unique ==> EmailErrors(wellFormed, unique, contactId)["email"] == Duplicate
    ensures !Empty(contactId) && unique && !wellFormed ==> EmailErrors(wellFormed, unique, contactId)["email"] == BadFormat
  {
  }

  class Email {
    const db: Store
    var id: Value
    var email: Value
    var contactId: Value

    /** `new Email($db, null)`: every field null. */
    constructor (db: Store)
      ensures this.db == db
      ensures id == Null && email == Null && contactId == Null
    {
      this.db := db;
      id, email, contactId := Null, Null, Null;
    }

    /** `new Email($db, $id)`: a null id gives an empty address; any other
        id loads the row, and a failed load throws. */
    static method New(db: Store, id: Value, exec: Exec) returns (r: Result<Email>)
      modifies db`prepared
      ensures r.Ok? ==> fresh(r.value) && r.value.db == db
      ensures id == Null ==> db.prepared == old(db.prepared) && r.Ok?
      ensures id == Null && r.Ok? ==> r.value.id == Null && r.value.email == Null && r.value.contactId == Null
      ensures id != Null ==> db.prepared == old(db.prepared) + [SelectQuery]
      ensures id != Null ==> (r.Ok? <==> LoadRow(db.emails, id, exec).Ok?)
      ensures id != Null && r.Err? ==> r.message == LoadError + LoadRow(db.emails, id, exec).message
      ensures id != Null && r.Ok? ==>
        var (k, rec) := LoadRow(db.emails, id, exec).value;
        r.value.id == Int(k) && r.value.email == Col(rec, "email") && r.value.contactId == Col(rec, "contact_id")
    {
      var e := new Email(db);
      if id == Null {
        r := Ok(e);
      } else {
        var loaded := e.LoadEmailData(id, exec);
        r := if loaded.Pass? then Ok(e) else Err(loaded.message);
      }
    }

    /** `loadEmailData($id)`: fills the fields from the fetched row, or
        throws "no match" or the driver's error, behind the load prefix. */
    method LoadEmailData(key: Value, exec: Exec) returns (r: Outcome)
      modifies this, db`prepared
      ensures db.prepared == old(db.prepared) + [SelectQuery]
      ensures r.Throw? <==> LoadRow(db.emails, key, exec).Err?
      ensures r.Throw? ==> r.message == LoadError + LoadRow(db.emails, key, exec).message
      ensures r.Throw? ==> id == old(id) && email == old(email) && contactId == old(contactId)
      ensures r.Pass? ==>
        var (k, rec) := LoadRow(db.emails, key, exec).value;
        id == Int(k) && email == Col(rec, "email") && contactId == Col(rec, "contact_id")
    {
      var result := db.SelectById(Emails, SelectQuery, key, exec);
      if result.Err? {
        r := Throw(LoadError + result.message);
      } else if |result.value| > 0 {
        var row := result.value[0];
        id := Col(row, "id");
        email := Col(row, "email");
        contactId := Col(row, "contact_id");
        r := Pass;
      } else {
        r := Throw(LoadError + NoMatch);
      }
    }

    /** `createEmail($email)`: inserts exactly the address and its owner;
        true when a row was inserted, otherwise throws. */
    method CreateEmail(email: Email, exec: Exec) returns (r: Outcome)
      requires db.Valid()
      modifies db
      ensures db.Valid()
      ensures db.prepared == old(db.prepared) + [InsertQuery("emails", ["email", "contact_id"])]
      ensures db.companies == old(db.companies) && db.contacts == old(db.contacts)
      ensures exec.Done? ==>
        r == Pass && db.emails == Appended(old(db.emails), map["email" := email.email, "contact_id" := email.contactId])
      ensures exec.Refused? ==> r == Throw(CreateError + InsertFailed) && db.emails == old(db.emails)
      ensures exec.Raised? ==> r == Throw(CreateError + InsertError + exec.message) && db.emails == old(db.emails)
    {
      var data := Columns(email.GetEmail(), email.GetContactId());
      assert Emails.Name() == "emails";
      var inserted := db.Insert(Emails, data, exec);
      if inserted.Err? {
        r := Throw(CreateError + inserted.message);
      } else if inserted.value > 0 {
        r := Pass;
      } else {
        r := Throw(CreateError + InsertFailed);
      }
    }

    /** `updateEmail($email)`: overwrites the address and owner on the row
        with the object's id only; true iff a row was affected. */
    method UpdateEmail(email: Email, exec: Exec) returns (r: Result<bool>)
      requires db.Valid()
      modifies db
      ensures db.Valid()
      ensures db.prepared == old(db.prepared) + [UpdateQuery]
      ensures db.companies == old(db.companies) && db.contacts == old(db.contacts)
      ensures exec.Done? ==>
        && r == Ok(FindId(old(db.emails), email.id).Some?)
        && db.emails == Updated(old(db.emails), email.id, map["email" := email.email, "contact_id" := email.contactId])
      ensures exec.Refused? ==> r == Ok(false) && db.emails == old(db.emails)
      ensures exec.Raised? ==> r == Err(UpdateError + ActionError + exec.message) && db.emails == old(db.emails)
    {
      var change := UpdateRow(Emails, email.GetId(), Columns(email.GetEmail(), email.GetContactId()));
      var updated := db.Action(UpdateQuery, change, exec);
      if updated.Err? {
        r := Err(UpdateError + updated.message);
      } else {
        r := Ok(updated.value > 0);
      }
    }

    /** `deleteEmail($id)`: removes the row with that id only; true iff a row was affected. */
    method DeleteEmail(key: Value, exec: Exec) returns (r: Result<bool>)
      requires db.Valid()
      modifies db
      ensures db.Valid()
      ensures db.prepared == old(db.prepared) + [DeleteQuery]
      ensures db.companies == old(db.companies) && db.contacts == old(db.contacts)
      ensures exec.Done? ==> r == Ok(FindId(old(db.emails), key).Some?) && db.emails == Deleted(old(db.emails), key)
      ensures exec.Refused? ==> r == Ok(false) && db.emails == old(db.emails)
      ensures exec.Raised? ==> r == Err(DeleteError + ActionError + exec.message) && db.emails == old(db.emails)
    {
      var deleted := db.Action(DeleteQuery, DeleteRow(Emails, key), exec);
      if deleted.Err? {
        r := Err(DeleteError + deleted.message);
      } else {
        r := Ok(deleted.value > 0);
      }
    }

    /** `isUnique($email)`: true exactly when no stored row has this
        address (a refused query fetches nothing, so it also says true). */
    method IsUnique(email: Email, exec: Exec) returns (r: Result<bool>)
      modifies db`prepared
      ensures db.prepared == old(db.prepared) + [UniqueQuery]
      ensures exec.Raised? ==> r == Err(UniqueError + SelectError + exec.message)
      ensures exec.Refused? ==> r == Ok(true)
      ensures exec.Done? ==> r == Ok(!Taken(db.emails, email.email))
    {
      var ids := db.SelectIdsWhere(Emails, UniqueQuery, "email", email.email, exec);
      if ids.Err? {
        r := Err(UniqueError + ids.message);
      } else if ids.value == {} {
        r := Ok(true);
      } else {
        ghost var k :| k in ids.value;
        r := Ok(false);
      }
    }

    method SetId(v: Value)
      modifies this
      ensures GetId() == v && email == old(email) && contactId == old(contactId)
    {
      id := v;
    }

    method SetEmail(v: Value)
      modifies this
      ensures GetEmail() == v && id == old(id) && contactId == old(contactId)
    {
      email := v;
    }

    method SetContactId(v: Value)
      modifies this
      ensures GetContactId() == v && id == old(id) && email == old(email)
    {
      contactId := v;
    }

    function GetId(): Value reads this { id }
    function GetEmail(): Value reads this { email }
    function GetContactId(): Value reads this { contactId }

    /** `validateEmail($email)`: the format check (`filter_var`, given here
        as `wellFormed`) and the uniqueness query look at the argument's
        address; the owner check looks at this object's own `contactId`.
        A failing uniqueness query throws out of the validator. */
    method ValidateEmail(email: Email, wellFormed: Value -> bool, exec: Exec) returns (r: Result<Verdict>)
      modifies db`prepared
      ensures db.prepared == old(db.prepared) + [UniqueQuery]
      ensures exec.Raised? ==> r == Err(UniqueError + SelectError + exec.message)
      ensures !exec.Raised? ==>
        r == Ok(VerdictOf(EmailErrors(wellFormed(email.email), exec.Refused? || !Taken(db.emails, email.email), contactId)))
    {
      var errors: map<string, string> := map[];
      if !wellFormed(email.email) {
        errors := errors["email" := "Az e-mail cím formátuma helytelen."];
      }
      var unique := IsUnique(email, exec);
      if unique.Err? {
        return Err(unique.message);
      }
      if !unique.value {
        errors := errors["email" := "Már létezik ilyen e-mail cím a rendszerben."];
      }
      if Empty(contactId) {
        errors := errors["email" := "A kontakt kiválasztása kötelező."];
      }
      var expected := EmailErrors(wellFormed(email.email), exec.Refused? || !Taken(db.emails, email.email), contactId);
      assert errors == expected;
      r := Ok(if errors == map[] then Valid else Invalid(errors));
    }
  }
}
