# vista: companies, contacts and their e-mail addresses

A Dafny model of the core of `vista`, a small PHP application in which one
records companies, contacts and the contacts' e-mail addresses. The model
covers four parts:

- **The entity classes.** `Company`, `Contact` and `Email` are bound to a
  database. Each is loaded by id or created empty. It is written back with
  create, update and delete, and checked by its validator.
- **`Database`.** This is the data-access layer. The model covers the text
  `insert` builds, and the return-value and exception-wrapping rules of
  `select`, `insert` and `action`.
- **`FormRequest`.** This is the submitted POST form.
- **The controller scripts.** These save and delete companies and contacts,
  and add and delete e-mail addresses. Afterwards they redirect, and store
  the errors they caught for the next page.

## How the model is built

- **PHP values.** A PHP scalar is `Php.Value` (`Null`, `Int` or `Str`).
  `empty()`, truthiness, `isset` and string conversion are written out for
  these values (module `Php`).
- **Exceptions.** An exception becomes a `Result` or `Outcome` carrying its
  message. All messages are the application's own Hungarian texts.
- **The database engine.** The engine behind PDO is the class
  `Database.Store`. It holds three tables, each a map from auto-increment
  id to row, plus a ghost log of every statement text prepared.
- **The driver.** What the driver does with one statement is an input,
  `Exec`. It either runs the statement, has `execute` return false, or
  throws a PDOException with a message.
- **The connection.** A failing `new Database()` is the input `connect`.
- **`filter_var`.** The call `filter_var($email, FILTER_VALIDATE_EMAIL)` is
  the input predicate `wellFormed`.
- **The entity classes themselves.** These are Dafny classes with the same
  fields. Their methods change the store through `Store.Insert`,
  `Store.Action` and `Store.SelectById`. Each method's `ensures` gives the
  new table in terms of `Appended`, `Updated` and `Deleted`. Each also gives
  the result or the exact exception message for each driver outcome.
- **Validation.** Each validator is tied to a function that states the
  errors by field (`CompanyErrors`, `ContactErrors`, `EmailErrors`).
  Lemmas give when the function reports nothing, and which messages it
  reports.
- **The controllers.** Each script block is modelled by a specification
  function (`SaveSpec`, `DeleteSpec`, `AddSpec`) over the values the block
  reads. An imperative handler (`Save`, `Delete`, `Add`) goes through the
  objects and the store, and is proved to give the specification's
  response and table. Lemmas state what the specification means:
  - when a block succeeds (both directions);
  - that a failure changes no table;
  - which row an update or delete touches;
  - that a created row loads back;
  - that an added address is then a duplicate;
  - where the redirect goes.
- **Repetition.** The three entity classes and the companies and contacts
  controllers repeat one another field for field in the source. The model
  keeps them as separate modules (`Columns`, `Redirect`, `Fail`,
  `FormFields`, ...) with the same shape, one per source file.

Where the comments in the source and its code disagree, the model follows
the code:

- **Success without errors.** The controllers' comments
  (`CompaniesController.php:127` and `:166`, `ContactsController.php:129`
  and `:168`, `EmailsController.php:102`) take an empty error array to mean the operation
  succeeded. But `deleteCompany`, `updateCompany` and their siblings return
  false, without an exception, when no row matched or the statement was
  refused, and the controllers ignore that result. So a delete of a row
  removed in the meantime, and an update whose statement is refused, still
  report success. The entity methods themselves do what their doc comments
  say.
- **`validateEmail`'s owner check.** It tests the validating object's own
  `contact_id`, not the argument's. The controller validates an address
  with itself, so `AddNeverReportsMissingOwner` shows the check never
  fires there.
- **The add block's redirect.** It prints `$contact->id`. When no contact
  was loaded, that variable is undefined and prints as an empty string, so
  the redirect is `/contacts.php?edit=` (`AddRedirectsToOwner`).
- **The company load's join.** `loadCompanyData` joins contacts on
  `companies.contact_id = companies.id` (`Company.php:46`). The model loads
  `contact_name` through that join as written (`JoinedNamesAsWritten`):
  for a company whose contact_id is not its own id the name is null.
  `JoinedName` is the join evidently intended, and `JoinsAgree` states for
  which records the two give the same name (see "## Findings").

## Model

| member | source | states |
|---|---|---|
| Php.Empty | System/Classes/Company.php:263-275 | defines `empty()` on a scalar: null, 0, "" and "0"; `CompanyValidIff`, `ContactValidIff` and `Require` state its use |
| Php.Truthy | System/Controllers/CompaniesController.php:94 | defines the truth value of `if ($v)` on a scalar, the negation of `empty()`; `SaveSucceedsIff` states its use on the form id |
| Php.ToStr | System/Controllers/EmailsController.php:65-67 | defines PHP's string conversion of a scalar, printing an integer through `Decimal`; `Database.PrintedKey` states that a printed id reads back |
| Php.Implode | System/Classes/Database.php:71-72 | defines `implode` over a sequence of strings; `ImplodePrefixed` states how the placeholder list is built from it |
| Php.IsSet | System/Classes/FormRequest.php:39 | defines `isset($m[$k])`: the key is present with a non-null value; `FormRequest.Get`, `GetWithoutDefault` and the delete blocks' guards state its use |
| Php.Index | System/Controllers/EmailsController.php:109 | an unguarded `$m[$k]` is the stored value when set and null otherwise |
| Php.Decimal | System/Controllers/EmailsController.php:65-67 | the numeral printed for an id is a non-empty digit string, built digit by digit from the most significant one |
| Php.ParseDecimal | System/Controllers/EmailsController.php:65-67 | reading a printed id back gives the same number |
| Php.ImplodePrefixed | System/Classes/Database.php:71-72 | a leading ":" plus `implode(", :", keys)` is `implode(", ", …)` of the keys each prefixed with ":" |
| Php.VerdictOf | System/Classes/Company.php:275 | a validator returns `true` exactly when it collected no error, and the error array otherwise |
| Php.Require | System/Classes/Company.php:263-275 | one required-field check adds the field's message exactly when its value is empty, and keeps every error recorded before it |
| Database.KeysOf | System/Classes/Database.php:71 | `array_keys` keeps the data's order and length |
| Database.ToRecord | System/Classes/Database.php:77 | binding the data stores every key with its value, and only those keys |
| Database.Col | System/Classes/Company.php:51-55 | defines reading a column of a fetched row, null when the row lacks it; `LoadRow` and the entity loads state its use |
| Database.KeyOf | System/Classes/Database.php:48-56 | defines which id a value bound to `WHERE id = :id` selects: a non-negative integer or a non-empty digit string; `FindId` and `PrintedKey` state its use |
| Database.PrintedKey | System/Controllers/EmailsController.php:65-67 | an id printed into a URL selects the same row with `WHERE id = :id` |
| Database.FindId | System/Classes/Database.php:48-56 | `WHERE id = :id` finds a row exactly when the bound value denotes a stored id |
| Database.Appended | System/Classes/Database.php:68-84 | an insert adds one row under a fresh auto-increment id and keeps every other row |
| Database.AppendedAddsOne | System/Classes/Database.php:68-84 | an insert grows the table by exactly one row |
| Database.Updated | System/Classes/Database.php:96-107 | an UPDATE overwrites the given columns on the matched row only and adds or removes no row |
| Database.Deleted | System/Classes/Database.php:96-107 | a DELETE removes the matched row only |
| Database.Matched | System/Classes/Database.php:100-103 | `rowCount` of a statement by id is at most 1, and is 1 exactly when a row matched |
| Database.Holders | System/Classes/Email.php:163-169 | `WHERE email = :email` selects exactly the rows holding that address; null selects nothing |
| Database.LoadRow | System/Classes/Company.php:44-62 | a load yields the row exactly when the statement runs and a row matches; otherwise it fails with the select error around the driver's message, or with "no match" |
| Database.InsertQuery | System/Classes/Database.php:68-84 | defines the text `insert` prepares: table, comma-separated keys, and the keys each behind ":"; `InsertPlaceholders`, `InsertWithoutData`, `InsertThree` and `InsertTwo` state its shape |
| Database.InsertPlaceholders | System/Classes/Database.php:71-73 | the INSERT text has one named placeholder per column, in column order |
| Database.InsertWithoutData | System/Classes/Database.php:71-73 | with no data the text has an empty column list and a lone ":" |
| Database.InsertThree | System/Classes/Database.php:71-73 | the INSERT text for three columns, written out |
| Database.InsertTwo | System/Classes/Database.php:71-73 | the INSERT text for two columns, written out |
| Database.Store.SelectById | System/Classes/Database.php:48-56 | `select` by id yields the matched row, or none; for the company load, whose join can fetch one row per contact, the model keeps the first row and `JoinedNamesAsWritten` gives the names that row can carry; a PDO error becomes the select error around its message |
| Database.Store.SelectIdsWhere | System/Classes/Database.php:48-56 | `select` by address fetches the rows holding it; a refused statement fetches nothing; a PDO error is wrapped |
| Database.Store.Insert | System/Classes/Database.php:68-84 | `insert` prepares the text built from the keys and returns 1 with the row appended, 0 when `execute` is false, or throws the insert error |
| Database.Store.Action | System/Classes/Database.php:96-107 | `action` returns the matched row count with the table updated or deleted, 0 when `execute` is false, or throws the action error; other tables are kept |
| Database.Store.constructor | System/Classes/Database.php:28-35 | the engine starts from three well-formed tables and no prepared statement |
| FormRequests.FormRequest.HasData | System/Classes/FormRequest.php:27-29 | defines `hasData` as a non-empty form; the controllers' `Save` and `Add` state that without data nothing happens |
| FormRequests.FormRequest.Get | System/Classes/FormRequest.php:38-40 | `get` returns the submitted value when it is set, the default otherwise |
| FormRequests.NoDataGivesDefaults | System/Classes/FormRequest.php:27-40 | on an empty form every read gives its default |
| FormRequests.GetWithoutDefault | System/Classes/FormRequest.php:38-40 | a read without default is non-null exactly when the key is present with a non-null value |
| Companies.Columns | System/Classes/Company.php:92-96 | the INSERT columns of createCompany and the UPDATE SET values of updateCompany are name, address and contact_id, in this order; updateCompany binds the id separately |
| Companies.CompanyErrors | System/Classes/Company.php:260-276 | defines the errors validateCompany collects, one `Require` per field in source order; `CompanyValidIff` and `CompanyErrorKeys` state their meaning |
| Companies.CompanyValidIff | System/Classes/Company.php:260-276 | validateCompany passes exactly when name, address and contact_id are all non-empty |
| Companies.CompanyErrorKeys | System/Classes/Company.php:260-276 | validateCompany reports exactly the empty fields, each with its fixed message |
| Companies.JoinAsWrittenLosesName | System/Classes/Company.php:46 | with the join as written, company 1 with contact 2 named "Anna" loads with a null contact name |
| Companies.JoinedNamesAsWritten | System/Classes/Company.php:46 | defines the names the join as written can put on the first row for company `k`: every contact's name when contact_id is `k` and contacts exist, else null; `SomeJoinedName` and `JoinsAgree` state its meaning |
| Companies.JoinedName | System/Classes/Company.php:46 | defines the name the evidently intended join gives: the company's own contact's name, or null; `JoinedNameIsLoadedContact` states its meaning |
| Companies.SomeJoinedName | System/Classes/Company.php:44-62 | the join as written always has a name for the first row, so loading a company can always fill contact_name |
| Companies.JoinedNameIsLoadedContact | System/Classes/Company.php:46 | the intended join gives the name of the very contact that loading the company's contact_id fetches, and null when that load finds nothing |
| Companies.JoinsAgree | System/Classes/Company.php:46 | for every company, table and record: the join as written can show the intended name when contact_id is the company's own id and that contact exists (or there are no contacts), or when contact_id names no stored contact; and, when every contact has a name, only then |
| Companies.Company.constructor | System/Classes/Company.php:21-32 | a company made without id has every field null |
| Companies.Company.New | System/Classes/Company.php:21-32 | a null id gives an empty company; any other id loads the matching row, with a contact name the join as written can give, or throws the load error around the cause |
| Companies.Company.LoadCompanyData | System/Classes/Company.php:44-62 | the fields are the fetched row's columns, and the contact name is one of the names the join as written can put on the first row; no match or a PDO error throws behind the load prefix and changes no field |
| Companies.Company.CreateCompany | System/Classes/Company.php:90-108 | inserts exactly the three fields as a new row; `execute` false or a PDO error throws behind the create prefix |
| Companies.Company.UpdateCompany | System/Classes/Company.php:117-137 | overwrites the three fields on that company's row only; true exactly when a row matched; a PDO error throws behind the update prefix |
| Companies.Company.DeleteCompany | System/Classes/Company.php:146-161 | removes that row only; true exactly when a row matched; a PDO error throws behind the delete prefix |
| Companies.Company.SetId | System/Classes/Company.php:168-170 | the id is set and nothing else changes |
| Companies.Company.SetName | System/Classes/Company.php:177-179 | the name is set and nothing else changes |
| Companies.Company.SetAddress | System/Classes/Company.php:186-188 | the address is set and nothing else changes |
| Companies.Company.SetContactId | System/Classes/Company.php:195-197 | the contact id is set and nothing else changes |
| Companies.Company.SetContactName | System/Classes/Company.php:204-206 | the contact name is set and nothing else changes |
| Companies.Company.GetId | System/Classes/Company.php:213-215 | defines the id getter, the field as stored |
| Companies.Company.GetName | System/Classes/Company.php:222-224 | defines the name getter, the field as stored |
| Companies.Company.GetAddress | System/Classes/Company.php:231-233 | defines the address getter, the field as stored |
| Companies.Company.GetContactId | System/Classes/Company.php:240-242 | defines the contact id getter, the field as stored |
| Companies.Company.GetContactName | System/Classes/Company.php:249-251 | defines the contact name getter, the field as stored |
| Companies.Company.ValidateCompany | System/Classes/Company.php:260-276 | the verdict is that of `CompanyErrors` on the argument's name, address and contact_id, whose meaning `CompanyValidIff` and `CompanyErrorKeys` state |
| Contacts.Columns | System/Classes/Contact.php:88-92 | the INSERT columns of createContact and the UPDATE SET values of updateContact are name, phone and address, in this order; updateContact binds the id separately |
| Contacts.ContactErrors | System/Classes/Contact.php:238-254 | defines the errors validateContact collects, one `Require` per field in source order; `ContactValidIff` and `ContactErrorKeys` state their meaning |
| Contacts.ContactValidIff | System/Classes/Contact.php:238-254 | validateContact passes exactly when name, phone and address are all non-empty |
| Contacts.ContactErrorKeys | System/Classes/Contact.php:238-254 | validateContact reports exactly the empty fields, each with its fixed message |
| Contacts.Contact.constructor | System/Classes/Contact.php:19-29 | a contact made without id has every field null |
| Contacts.Contact.New | System/Classes/Contact.php:19-29 | a null id gives an empty contact; any other id loads the matching row or throws the load error around the cause |
| Contacts.Contact.LoadContactData | System/Classes/Contact.php:41-58 | the fields are the fetched row's columns; no match or a PDO error throws behind the load prefix and changes no field |
| Contacts.Contact.CreateContact | System/Classes/Contact.php:86-104 | inserts exactly the three fields as a new row; `execute` false or a PDO error throws behind the create prefix |
| Contacts.Contact.UpdateContact | System/Classes/Contact.php:113-133 | overwrites the three fields on that contact's row only; true exactly when a row matched; a PDO error throws behind the update prefix |
| Contacts.Contact.DeleteContact | System/Classes/Contact.php:142-157 | removes that row only; true exactly when a row matched; a PDO error throws behind the delete prefix |
| Contacts.Contact.SetId | System/Classes/Contact.php:164-166 | the id is set and nothing else changes |
| Contacts.Contact.SetName | System/Classes/Contact.php:173-175 | the name is set and nothing else changes |
| Contacts.Contact.SetPhone | System/Classes/Contact.php:182-184 | the phone is set and nothing else changes |
| Contacts.Contact.SetAddress | System/Classes/Contact.php:191-193 | the address is set and nothing else changes |
| Contacts.Contact.GetId | System/Classes/Contact.php:200-202 | defines the id getter, the field as stored |
| Contacts.Contact.GetName | System/Classes/Contact.php:209-211 | defines the name getter, the field as stored |
| Contacts.Contact.GetPhone | System/Classes/Contact.php:218-220 | defines the phone getter, the field as stored |
| Contacts.Contact.GetAddress | System/Classes/Contact.php:227-229 | defines the address getter, the field as stored |
| Contacts.Contact.ValidateContact | System/Classes/Contact.php:238-254 | the verdict is that of `ContactErrors` on the argument's name, phone and address, whose meaning `ContactValidIff` and `ContactErrorKeys` state |
| Emails.Columns | System/Classes/Email.php:85-88 | the INSERT columns of createEmail and the UPDATE SET values of updateEmail are email and contact_id, in this order; updateEmail binds the id separately |
| Emails.Taken | System/Classes/Email.php:163-171 | defines when isUnique's query finds the address: some stored row holds it, and it is not null; `IsUnique` and `AddThenDuplicate` state its use |
| Emails.EmailErrors | System/Classes/Email.php:245-261 | the only key validateEmail ever reports is "email" |
| Emails.EmailValidIff | System/Classes/Email.php:245-261 | validateEmail passes exactly when the address is well formed, not stored yet, and the owner is set; otherwise it reports one message |
| Emails.EmailErrorPriority | System/Classes/Email.php:248-258 | since every check writes the same key, a missing owner wins over a duplicate, and a duplicate wins over a bad format |
| Emails.Email.constructor | System/Classes/Email.php:18-27 | an address made without id has every field null |
| Emails.Email.New | System/Classes/Email.php:18-27 | a null id gives an empty address; any other id loads the matching row or throws the load error around the cause |
| Emails.Email.LoadEmailData | System/Classes/Email.php:39-55 | the fields are the fetched row's columns; no match or a PDO error throws behind the load prefix and changes no field |
| Emails.Email.CreateEmail | System/Classes/Email.php:83-100 | inserts exactly the address and its owner as a new row; `execute` false or a PDO error throws behind the create prefix |
| Emails.Email.UpdateEmail | System/Classes/Email.php:109-128 | overwrites address and owner on that row only; true exactly when a row matched; a PDO error throws behind the update prefix |
| Emails.Email.DeleteEmail | System/Classes/Email.php:137-152 | removes that row only; true exactly when a row matched; a PDO error throws behind the delete prefix |
| Emails.Email.IsUnique | System/Classes/Email.php:161-180 | true exactly when no stored row holds the address (a refused query fetches nothing); a PDO error throws behind the check prefix |
| Emails.Email.SetId | System/Classes/Email.php:187-189 | the id is set and nothing else changes |
| Emails.Email.SetEmail | System/Classes/Email.php:196-198 | the address is set and nothing else changes |
| Emails.Email.SetContactId | System/Classes/Email.php:205-207 | the owner is set and nothing else changes |
| Emails.Email.GetId | System/Classes/Email.php:214-216 | defines the id getter, the field as stored |
| Emails.Email.GetEmail | System/Classes/Email.php:223-225 | defines the address getter, the field as stored |
| Emails.Email.GetContactId | System/Classes/Email.php:232-234 | defines the owner getter, the field as stored |
| Emails.Email.ValidateEmail | System/Classes/Email.php:245-261 | the verdict is `EmailErrors` for the argument's format and uniqueness and this object's owner; a failing uniqueness query throws out of it |
| CompaniesController.Redirect | System/Controllers/CompaniesController.php:128-135 | the block goes to the list page, with `?success=true` exactly when no error was recorded |
| CompaniesController.Fail | System/Controllers/CompaniesController.php:122-124 | a caught exception is recorded as the one "server" error, and the table is left as it was |
| CompaniesController.FormFields | System/Controllers/CompaniesController.php:103-105 | defines the three columns the save block copies from the form onto the object; `SaveCreatesLoadableRow` and `SaveUpdatesLoadedRow` state that exactly these are stored |
| CompaniesController.FieldErrors | System/Controllers/CompaniesController.php:108 | defines the validator's errors on the fields copied from the form; `SaveSucceedsIff` and `SaveFailureKeepsTable` state their use |
| CompaniesController.SaveSpec | System/Controllers/CompaniesController.php:86-137 | defines the save block's response and table over the form, the table, the connection and the driver's outcomes; `SaveSucceedsIff`, `SaveFailureKeepsTable`, `SaveCreatesLoadableRow` and `SaveUpdatesLoadedRow` state its meaning, and `Save` is proved to follow it |
| CompaniesController.CheckedWrite | System/Controllers/CompaniesController.php:107-124 | defines the step after the company is at hand: field errors are reported with the invalid-form message, else `WriteSpec` runs; `InvalidFormKeepsFieldMessages` and `SaveFailureKeepsTable` state its meaning |
| CompaniesController.WriteSpec | System/Controllers/CompaniesController.php:116-120 | defines the write step: an update of the loaded row or an insert of a new one, a thrown exception recorded as the server error; `SaveCreatesLoadableRow` and `SaveUpdatesLoadedRow` state its meaning |
| CompaniesController.SaveSucceedsIff | System/Controllers/CompaniesController.php:86-137 | a save succeeds exactly when the connection opens, a truthy form id names a stored company, all three fields are non-empty, and the write does not throw; an insert must also report its row |
| CompaniesController.SaveFailureKeepsTable | System/Controllers/CompaniesController.php:108-124 | a failed save records a "server" error and changes no company; an invalid form reports the field errors plus the invalid-form message |
| CompaniesController.InvalidFormKeepsFieldMessages | System/Controllers/CompaniesController.php:110-123 | field messages and the server message are under different keys, so both survive |
| CompaniesController.SaveCreatesLoadableRow | System/Controllers/CompaniesController.php:98-119 | a save without id stores exactly the form's fields under a fresh id, keeps every other row, and that row loads back |
| CompaniesController.SaveUpdatesLoadedRow | System/Controllers/CompaniesController.php:94-117 | a save with an id overwrites the form's fields on the loaded row only |
| CompaniesController.DeleteSpec | System/Controllers/CompaniesController.php:145-175 | defines the delete block's response and table over the query, the table, the connection and the driver's outcomes; `DeleteSucceedsIff` and `DeleteRemovesNamedRow` state its meaning, and `Delete` is proved to follow it |
| CompaniesController.DeleteSucceedsIff | System/Controllers/CompaniesController.php:145-175 | a delete succeeds exactly when the connection opens, the named company exists, and the statement does not throw; a failure is one server error and changes nothing |
| CompaniesController.DeleteRemovesNamedRow | System/Controllers/CompaniesController.php:153-159 | a delete removes the named row and nothing else, after which that id no longer loads |
| CompaniesController.Save | System/Controllers/CompaniesController.php:84-137 | the save block on the objects and the store gives `SaveSpec`'s response and companies table, and does nothing without form data |
| CompaniesController.Attempt | System/Controllers/CompaniesController.php:91-124 | the `try` block with its `catch` records `SaveSpec`'s errors |
| CompaniesController.Check | System/Controllers/CompaniesController.php:107-124 | validating the prepared company and then writing it records the errors of `CheckedWrite`: the field messages plus the invalid-form message, or the write's outcome |
| CompaniesController.Prepare | System/Controllers/CompaniesController.php:94-105 | the company worked on is loaded when the form id is truthy and empty otherwise, and carries the form's fields |
| CompaniesController.Write | System/Controllers/CompaniesController.php:116-120 | a loaded company is updated and a new one created, as `WriteSpec` states |
| CompaniesController.Delete | System/Controllers/CompaniesController.php:145-175 | the delete block gives `DeleteSpec`'s response and table, and does nothing unless `delete` is set |
| ContactsController.Redirect | System/Controllers/ContactsController.php:130-137 | the block goes to the list page, with `?success=true` exactly when no error was recorded |
| ContactsController.Fail | System/Controllers/ContactsController.php:124-126 | a caught exception is recorded as the one "server" error, and the table is left as it was |
| ContactsController.FormFields | System/Controllers/ContactsController.php:105-107 | defines the three columns the save block copies from the form onto the object; `SaveCreatesLoadableRow` and `SaveUpdatesLoadedRow` state that exactly these are stored |
| ContactsController.FieldErrors | System/Controllers/ContactsController.php:110 | defines the validator's errors on the fields copied from the form; `SaveSucceedsIff` and `SaveFailureKeepsTable` state their use |
| ContactsController.SaveSpec | System/Controllers/ContactsController.php:88-139 | defines the save block's response and table over the form, the table, the connection and the driver's outcomes; `SaveSucceedsIff`, `SaveFailureKeepsTable`, `SaveCreatesLoadableRow` and `SaveUpdatesLoadedRow` state its meaning, and `Save` is proved to follow it |
| ContactsController.CheckedWrite | System/Controllers/ContactsController.php:109-126 | defines the step after the contact is at hand: field errors are reported with the invalid-form message, else `WriteSpec` runs; `InvalidFormKeepsFieldMessages` and `SaveFailureKeepsTable` state its meaning |
| ContactsController.WriteSpec | System/Controllers/ContactsController.php:118-122 | defines the write step: an update of the loaded row or an insert of a new one, a thrown exception recorded as the server error; `SaveCreatesLoadableRow` and `SaveUpdatesLoadedRow` state its meaning |
| ContactsController.SaveSucceedsIff | System/Controllers/ContactsController.php:88-139 | a save succeeds exactly when the connection opens, a truthy form id names a stored contact, all three fields are non-empty, and the write does not throw; an insert must also report its row |
| ContactsController.SaveFailureKeepsTable | System/Controllers/ContactsController.php:110-126 | a failed save records a "server" error and changes no contact; an invalid form reports the field errors plus the invalid-form message |
| ContactsController.InvalidFormKeepsFieldMessages | System/Controllers/ContactsController.php:112-125 | field messages and the server message are under different keys, so both survive |
| ContactsController.SaveCreatesLoadableRow | System/Controllers/ContactsController.php:100-121 | a save without id stores exactly the form's fields under a fresh id, keeps every other row, and that row loads back |
| ContactsController.SaveUpdatesLoadedRow | System/Controllers/ContactsController.php:96-119 | a save with an id overwrites the form's fields on the loaded row only |
| ContactsController.DeleteSpec | System/Controllers/ContactsController.php:147-177 | defines the delete block's response and table over the query, the table, the connection and the driver's outcomes; `DeleteSucceedsIff` and `DeleteRemovesNamedRow` state its meaning, and `Delete` is proved to follow it |
| ContactsController.DeleteSucceedsIff | System/Controllers/ContactsController.php:147-177 | a delete succeeds exactly when the connection opens, the named contact exists, and the statement does not throw; a failure is one server error and changes nothing |
| ContactsController.DeleteRemovesNamedRow | System/Controllers/ContactsController.php:155-161 | a delete removes the named row and nothing else, after which that id no longer loads |
| ContactsController.Save | System/Controllers/ContactsController.php:86-139 | the save block on the objects and the store gives `SaveSpec`'s response and contacts table, and does nothing without form data |
| ContactsController.Attempt | System/Controllers/ContactsController.php:93-126 | the `try` block with its `catch` records `SaveSpec`'s errors |
| ContactsController.Check | System/Controllers/ContactsController.php:109-126 | validating the prepared contact and then writing it records the errors of `CheckedWrite`: the field messages plus the invalid-form message, or the write's outcome |
| ContactsController.Prepare | System/Controllers/ContactsController.php:96-107 | the contact worked on is loaded when the form id is truthy and empty otherwise, and carries the form's fields |
| ContactsController.Write | System/Controllers/ContactsController.php:118-122 | a loaded contact is updated and a new one created, as `WriteSpec` states |
| ContactsController.Delete | System/Controllers/ContactsController.php:147-177 | the delete block gives `DeleteSpec`'s response and table, and does nothing unless `delete` is set |
| EmailsController.BackTo | System/Controllers/EmailsController.php:61-68 | the add block goes to the contact's edit page, with `&success=true` exactly when no error was recorded |
| EmailsController.Fail | System/Controllers/EmailsController.php:55-57 | a caught exception is recorded as the one "server" error, and the table is left as it was |
| EmailsController.Unique | System/Classes/Email.php:252-254 | defines when the uniqueness check passes: the query is refused and fetches nothing, or no row holds the address; `AddSucceedsIff` and `AddThenDuplicate` state its use |
| EmailsController.AddSpec | System/Controllers/EmailsController.php:16-70 | defines the add block's response and emails table over the form, the tables, the connection and the driver's outcomes; `AddSucceedsIff`, `AddFailureStoresNothing`, `AddRedirectsToOwner` and `AddThenDuplicate` state its meaning, and `Add` is proved to follow it |
| EmailsController.AddSucceedsIff | System/Controllers/EmailsController.php:16-70 | an add succeeds exactly when the connection opens, the form names a stored contact, the address is given, well formed and new, the uniqueness query does not throw, and the insert reports its row |
| EmailsController.AddressSpec | System/Controllers/EmailsController.php:35-68 | once a contact is loaded, every outcome of the add leads back to that contact's edit page |
| EmailsController.AddNeverReportsMissingOwner | System/Controllers/EmailsController.php:42-45 | the owner check of validateEmail never fires in this block, since the address gets the loaded contact's id |
| EmailsController.OwnerNeverMissing | System/Controllers/EmailsController.php:42-45 | with a stored contact (id at least 1) as owner, the address's errors never report a missing owner |
| EmailsController.NoOwner | System/Controllers/EmailsController.php:24-32 | without a truthy contact id the block reports only the missing-contact message under "server", whatever the address, stores nothing and goes to the bare edit page |
| EmailsController.NoAddressGiven | System/Controllers/EmailsController.php:34-39 | with the contact loaded but no truthy address the block reports only the missing-address message under "server", stores nothing and goes back to that contact |
| EmailsController.InvalidKeys | System/Controllers/EmailsController.php:41-50 | an address that fails validation is reported as exactly an "email" entry (the duplicate message, else the bad-format one) and the invalid-form message under "server", and nothing is stored |
| EmailsController.AddressInvalid | System/Controllers/EmailsController.php:41-50 | once contact `k` (a stored id, so at least 1) is loaded, a given address that fails validation yields exactly the "email" entry (duplicate, else bad format) and the invalid-form message, and keeps the table |
| EmailsController.AddFailureStoresNothing | System/Controllers/EmailsController.php:21-57 | a failed add records a "server" error and stores no address |
| EmailsController.AddRedirectsToOwner | System/Controllers/EmailsController.php:61-68 | after a contact is loaded, the redirect names it by an id that selects it again; before that the id part is empty |
| EmailsController.AddThenDuplicate | System/Controllers/EmailsController.php:41-53 | a successful add stores the address with its owner under a fresh id; adding it again is then reported as a duplicate |
| EmailsController.DeleteFail | System/Controllers/EmailsController.php:97-107 | a failed delete records one "server" error, goes to the list page and keeps the table |
| EmailsController.DeleteSpec | System/Controllers/EmailsController.php:81-111 | defines the delete block's response and table; `DeleteSucceedsIff`, `DeleteFail` and `DeleteRemovesNamedRow` state its meaning, and `Delete` is proved to follow it |
| EmailsController.DeleteSucceedsIff | System/Controllers/EmailsController.php:81-111 | a delete succeeds exactly when the connection opens, the named address exists, and the statement does not throw |
| EmailsController.DeleteGoesToContact | System/Controllers/EmailsController.php:86-110 | a delete that does not throw goes to the edit page of the query's `contactId` with `&success=true`, and removes the named address unless the statement is refused |
| EmailsController.DeleteRemovesNamedRow | System/Controllers/EmailsController.php:89-95 | a delete removes the named address and nothing else, after which that id no longer loads |
| EmailsController.Add | System/Controllers/EmailsController.php:14-70 | the add block on the objects and the store gives `AddSpec`'s response and emails table, and does nothing without form data |
| EmailsController.Attempt | System/Controllers/EmailsController.php:21-57 | the `try` block with its `catch` records `AddSpec`'s errors and the printed contact id |
| EmailsController.AddAddress | System/Controllers/EmailsController.php:34-57 | after the contact is loaded, the rest of the block records `AddressSpec`'s errors and emails table |
| EmailsController.Submit | System/Controllers/EmailsController.php:41-57 | validating the new address object and creating it records `AddressSpec`'s errors and emails table |
| EmailsController.Delete | System/Controllers/EmailsController.php:81-111 | the delete block gives `DeleteSpec`'s response and table, and does nothing unless `deleteEmail` is set |

## Left out

- Views (`companies.php`, `contacts.php` and the HTML they render), sessions and `header()`. These are I/O. The model returns the errors stored in the session and the `Location` as a `Response`.
- The PDO connection and its credentials. The connection's outcome is the input `connect`. Which server is reached is outside the model.
- The SQL engine's text handling. Statement texts are kept as strings and matched by meaning, not parsed. This leaves out MySQL's lax coercion in `WHERE id = :id` (for example "5abc" or " 5" selecting row 5). It also leaves out the collation's case-insensitive comparison of e-mail addresses.
- MySQL's default `rowCount` for UPDATE counts changed rows, not matched ones. The model counts matched rows. So `updateCompany`, `updateContact` and `updateEmail` return true in the model for an update that changes nothing, where the source returns false. The controllers ignore the update's result, so only the entity method's own return value differs.
- `filter_var` is not modelled. It is the uninterpreted input `wellFormed`.
- Floats, booleans and arrays among PHP values. The application only moves strings, integers and null.
- `getAll` of the three entity classes, and the controllers' `getTable`, `getCompanyData`, `getContacts`, `getContactData` and `getContactEmails`. These are read-only pass-throughs for the views. `getContactEmails` calls a `getEmails` method that `Contact` does not define.
- The checks `if(!$company)`, `if(!$contact)` and `if(!$email)` after `new`. They can never fire: `new` never yields a falsy object.
- A request that carries both form data and a delete parameter runs both blocks of a controller. Each block is modelled on its own.
- Companies.Company.LoadCompanyData: the order of the joined rows is left to the engine, so the contact name is stated as one of the names `JoinedNamesAsWritten` offers, not as one name.

## Findings

| source | as written | input that shows it | evidently intended | confidence | as-written member | corrected member |
|---|---|---|---|---|---|---|
| System/Classes/Company.php:46 | the load query joins contacts `ON companies.contact_id = companies.id` | company 1 with contact_id 2, and contact 2 named "Anna": the company loads with a null `contact_name` | `ON companies.contact_id = contacts.id`, giving the company's own contact's name | high; not executed | Companies.JoinAsWrittenLosesName | Companies.JoinedNameIsLoadedContact |
