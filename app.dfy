/** The application object: the password entry that generation fills and
    saving reads, and the credential store opened at start-up. */
module App {
  import opened Alphabets
  import opened Generator
  import opened Store

  datatype GenerateResult = Generated(password: string) | NoCharacterType

  datatype SaveResult = Saved | MissingField | ServiceExists

  datatype ViewResult = NoPasswordsStored | Listed(records: seq<Record>)

  /** What saving does to the table, as a value: its outcome and the rows
      afterwards. Empty fields are refused before the INSERT is tried; the
      UNIQUE constraint refuses a service that is already stored. */
  function Save(rows: Rows, service: string, password: string, now: Timestamp): (out: (SaveResult, Rows))
    ensures forall s :: s in rows ==> s in out.1 && out.1[s] == rows[s]
    ensures out.1.Keys <= rows.Keys + {service}
  {
    if service == "" || password == "" then (MissingField, rows)
    else if service in rows then (ServiceExists, rows)
    else (Saved, rows[service := Entry(password, now)])
  }

  /** An empty service name or password stores nothing. */
  lemma SaveMissingField(rows: Rows, service: string, password: string, now: Timestamp)
    requires service == "" || password == ""
    ensures Save(rows, service, password, now) == (MissingField, rows)
  {
  }

  /** Non-empty fields for a service already stored: the UNIQUE constraint
      refuses the INSERT and the table is unchanged. */
  lemma SaveServiceExists(rows: Rows, service: string, password: string, now: Timestamp)
    requires service != "" && password != "" && service in rows
    ensures Save(rows, service, password, now) == (ServiceExists, rows)
  {
  }

  /** Saving succeeds exactly for a non-empty pair whose service is new, and
      then adds exactly one record, (service, password, now). */
  lemma SaveAddsOneRecord(rows: Rows, service: string, password: string, now: Timestamp)
    ensures Save(rows, service, password, now).0 == Saved
            <==> service != "" && password != "" && service !in rows
    ensures Save(rows, service, password, now).0 == Saved ==>
              RecordsOf(Save(rows, service, password, now).1) == RecordsOf(rows) + {Record(service, password, now)}
    ensures Save(rows, service, password, now).0 != Saved ==> Save(rows, service, password, now).1 == rows
  {
    if service != "" && password != "" && service !in rows {
      RecordsOfInsert(rows, service, Entry(password, now));
    }
  }

  /** After a successful save, the listing holds exactly one record for that
      service, and it carries the saved password and time. */
  lemma SavedServiceListedOnce(rows: Rows, service: string, password: string, now: Timestamp, r: Record)
    requires Save(rows, service, password, now).0 == Saved
    requires r in RecordsOf(Save(rows, service, password, now).1) && r.service == service
    ensures r == Record(service, password, now)
  {
    RecordsOfMembers(Save(rows, service, password, now).1);
  }

  /** A second save for the same service is refused, whatever its password
      and time, and the first save's record stays as it was. */
  lemma SaveTwiceSameService(rows: Rows, service: string, password1: string, now1: Timestamp,
                             password2: string, now2: Timestamp)
    requires Save(rows, service, password1, now1).0 == Saved
    ensures var rows1 := Save(rows, service, password1, now1).1;
            var (r2, rows2) := Save(rows1, service, password2, now2);
            && r2 != Saved && rows2 == rows1
            && (password2 != "" ==> r2 == ServiceExists)
            && rows2[service] == Entry(password1, now1)
  {
  }

  /** `PasswordGenerator`: the window's password entry and its database. */
  class PasswordGenerator {
    var passwordEntry: string
    const store: CredentialStore

    ghost predicate Valid()
      reads this, store
    {
      store.Valid() && store.tableExists
    }

    /** Opens the database file and runs CREATE TABLE IF NOT EXISTS; the
        password entry starts empty. */
    constructor (file: DbFile)
      ensures Valid() && fresh(store)
      ensures passwordEntry == ""
      ensures store.rows == if file.HasTable? then file.rows else map[]
    {
      var db := new CredentialStore.Connect(file);
      db.InitDb();
      store := db;
      passwordEntry := "";
    }

    /** Builds the character set from the four flags; refuses an empty one
        and leaves the entry alone; otherwise draws `length` characters and
        replaces the entry's contents with them. */
    method GeneratePassword(length: int, upper: bool, lower: bool, digits: bool, symbols: bool,
                            pick: nat -> nat) returns (r: GenerateResult)
      modifies this`passwordEntry
      ensures Valid() == old(Valid())
      ensures r == NoCharacterType <==> !upper && !lower && !digits && !symbols
      ensures r == NoCharacterType ==> passwordEntry == old(passwordEntry)
      ensures r.Generated? ==> passwordEntry == r.password
      ensures r.Generated? ==> DrawnFrom(r.password, Charset(upper, lower, digits, symbols), length, pick)
      ensures r.Generated? ==> forall i :: 0 <= i < |r.password| ==> InEnabledClass(r.password[i], upper, lower, digits, symbols)
    {
      var chars := BuildCharset(upper, lower, digits, symbols);
      CharsetEmpty(upper, lower, digits, symbols);
      if chars == "" {
        return NoCharacterType;
      }
      var password := DrawPassword(chars, length, pick);
      DrawnInEnabledClasses(password, length, pick, upper, lower, digits, symbols);
      // entry.delete(0, END), then entry.insert(0, password)
      passwordEntry := "";
      passwordEntry := password + passwordEntry;
      r := Generated(password);
    }

    /** Saves the service entry's text with the password entry's text,
        stamped `now`. */
    method SavePassword(service: string, now: Timestamp) returns (r: SaveResult)
      requires Valid()
      modifies store
      ensures Valid()
      ensures (r, store.rows) == Save(old(store.rows), service, passwordEntry, now)
    {
      if service == "" || passwordEntry == "" {
        return MissingField;
      }
      var inserted := store.Insert(service, passwordEntry, now);
      r := if inserted == Inserted then Saved else ServiceExists;
    }

    /** Lists every stored record once, or reports that there is none. */
    method ViewPasswords() returns (v: ViewResult)
      requires Valid()
      ensures v == NoPasswordsStored <==> store.rows == map[]
      ensures v.Listed? ==> (forall r :: r in v.records <==> r in RecordsOf(store.rows))
      ensures v.Listed? ==> forall i, j :: 0 <= i < j < |v.records| ==> v.records[i].service != v.records[j].service
    {
      var records := store.SelectAll();
      if records == [] {
        return NoPasswordsStored;
      }
      v := Listed(records);
    }
  }
}
