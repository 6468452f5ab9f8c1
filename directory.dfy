/**
 * The `aduser` table and what the main window does to it: the CSV import
 * (`menue_csv_import`), which derives a user name and an e-mail address from
 * each row and then updates the record with that user name or inserts a new
 * one, and the two single-record changes, delete and deactivate.
 */
module Directory {
  import opened Common
  import opened Text

  /** One record of table `aduser` (the `modified` time stamp is not modelled). */
  datatype AdUser = AdUser(
    idPk: int,
    firstname: string, lastname: string, username: string, email: string,
    phone: string, department: string, street: string, city: string, cityCode: string, postalcode: string,
    statusId: int, ouId: int)

  /** The values the import takes from one CSV row, ready to be written. */
  datatype Candidate = Candidate(
    firstname: string, lastname: string, username: string, email: string,
    phone: string, department: string, street: string, city: string, cityCode: string, postalcode: string,
    statusId: int, ouId: int)

  /** One row as `csv.DictReader` yields it: column name to cell text. */
  type Row = map<string, string>

  /** Why a row raised: a `KeyError`, the `IndexError` of `firstname[0]`, or the `ValueError` of `int()`. */
  datatype RowError = MissingColumn(column: string) | EmptyFirstname | NotAnInteger(column: string)

  const MailDomain: string := "@M-zukunftsmotor.local"

  /** The status code `deactivate_ad_user` writes. */
  const Inactive: int := 2

  /** `(firstname[0] + lastname).lower()` */
  function Username(firstname: string, lastname: string): string
    requires |firstname| > 0
  {
    Lower([firstname[0]] + lastname)
  }

  /** `f"{firstname.lower()}.{lastname.lower()}@M-zukunftsmotor.local"` */
  function Email(firstname: string, lastname: string): string
  {
    Lower(firstname) + "." + Lower(lastname) + MailDomain
  }

  /** The user name is the lowered initial followed by the lowered last name, with no capital left. */
  lemma UsernameShape(firstname: string, lastname: string)
    requires |firstname| > 0
    ensures |Username(firstname, lastname)| == |lastname| + 1
    ensures Username(firstname, lastname)[0] == LowerChar(firstname[0])
    ensures Username(firstname, lastname)[1..] == Lower(lastname)
    ensures forall i :: 0 <= i < |Username(firstname, lastname)| ==> !IsUpper(Username(firstname, lastname)[i])
  {
    LowerAppend([firstname[0]], lastname);
    LowerIdempotent([firstname[0]] + lastname);
  }

  /** Names that differ only in ASCII case give the same user name and the same e-mail address. */
  lemma DerivationIgnoresCase(f1: string, l1: string, f2: string, l2: string)
    requires |f1| > 0 && |f2| > 0
    requires Lower(f1) == Lower(f2) && Lower(l1) == Lower(l2)
    ensures Username(f1, l1) == Username(f2, l2)
    ensures Email(f1, l1) == Email(f2, l2)
  {
    LowerAppend([f1[0]], l1);
    LowerAppend([f2[0]], l2);
    assert LowerChar(f1[0]) == Lower(f1)[0] == Lower(f2)[0] == LowerChar(f2[0]);
  }

  /** The names of the example row give the user name "amuster"... */
  lemma AnnaMusterUsername()
    ensures Username("Anna", "Muster") == "amuster"
  {
    assert ["Anna"[0]] + "Muster" == "AMuster";
    LowerTo("AMuster", "amuster");
  }

  /** ...whatever their case. */
  lemma AnnaMusterUsernameUpper()
    ensures Username("ANNA", "MUSTER") == "amuster"
  {
    assert ["ANNA"[0]] + "MUSTER" == "AMUSTER";
    LowerTo("AMUSTER", "amuster");
  }

  /** The e-mail address of the example row. */
  lemma AnnaMusterEmail()
    ensures Email("Anna", "Muster") == "anna.muster" + MailDomain
  {
    LowerTo("Anna", "anna");
    LowerTo("Muster", "muster");
    assert "anna" + "." + "muster" == "anna.muster";
  }

  // Reading one row.

  function Column(row: Row, name: string): Result<string, RowError>
  {
    if name in row then Ok(row[name]) else Err(MissingColumn(name))
  }

  /** `int(row[name])`: the `KeyError` of a missing column, else the `ValueError` of a cell that is not an integer. */
  function IntColumn(row: Row, name: string): (r: Result<int, RowError>)
    ensures r.Ok? <==> name in row && ParseInt(row[name]).Some?
    ensures r.Ok? ==> Some(r.value) == ParseInt(row[name])
    ensures name !in row ==> r == Err(MissingColumn(name))
    ensures name in row && ParseInt(row[name]).None? ==> r == Err(NotAnInteger(name))
  {
    var text :- Column(row, name);
    match ParseInt(text)
    case Some(n) => Ok(n)
    case None => Err(NotAnInteger(name))
  }

  /** A row the import loop gets through without raising: all ten columns, a first name, two integers. */
  predicate WellFormedRow(row: Row)
  {
    && "firstname" in row && "lastname" in row
    && row["firstname"] != []
    && WellFormedRest(row)
  }

  /** The columns read after the names are all there, and the two codes are integers. */
  predicate WellFormedRest(row: Row)
  {
    && "kurs" in row && "status_id_fk" in row
    && "phone" in row && "abteilung" in row && "street" in row && "city" in row
    && "city_code" in row && "postalcode" in row
    && ParseInt(row["kurs"]).Some?
    && ParseInt(row["status_id_fk"]).Some?
  }

  /**
   * The body of the import loop up to the store call, in the order the source
   * evaluates it, so that the first failing access decides the error. The
   * remaining columns are read after the user-name lookup, which only reads,
   * so reading them here changes nothing.
   */
  function ParseRow(row: Row): (r: Result<Candidate, RowError>)
    ensures r.Ok? <==> WellFormedRow(row)
    ensures r.Ok? ==>
      && r.value.username == Username(row["firstname"], row["lastname"])
      && r.value.email == Email(row["firstname"], row["lastname"])
      && Some(r.value.ouId) == ParseInt(row["kurs"])
      && Some(r.value.statusId) == ParseInt(row["status_id_fk"])
    ensures "firstname" !in row ==> r == Err(MissingColumn("firstname"))
    ensures "firstname" in row && "lastname" in row && row["firstname"] == [] ==> r == Err(EmptyFirstname)
  {
    var firstname :- Column(row, "firstname");
    var lastname :- Column(row, "lastname");
    if firstname == [] then Err(EmptyFirstname)
    else ParseRest(row, firstname, lastname)
  }

  /** The rest of the row, once the names are read and the first name is not empty. */
  function ParseRest(row: Row, firstname: string, lastname: string): (r: Result<Candidate, RowError>)
    requires firstname != []
    ensures r.Ok? <==> WellFormedRest(row)
    ensures r.Ok? ==>
      && r.value.username == Username(firstname, lastname)
      && r.value.email == Email(firstname, lastname)
      && Some(r.value.ouId) == ParseInt(row["kurs"])
      && Some(r.value.statusId) == ParseInt(row["status_id_fk"])
  {
    var kurs :- IntColumn(row, "kurs");
    var status :- IntColumn(row, "status_id_fk");
    var phone :- Column(row, "phone");
    var department :- Column(row, "abteilung");
    var street :- Column(row, "street");
    var city :- Column(row, "city");
    var cityCode :- Column(row, "city_code");
    var postalcode :- Column(row, "postalcode");
    Ok(Candidate(firstname, lastname, Username(firstname, lastname), Email(firstname, lastname),
                 phone, department, street, city, cityCode, postalcode, status, kurs))
  }

  /**
   * What the UPDATE and the INSERT write for a well-formed row: its cells as
   * they are (the department from column `abteilung`), the derived user name
   * and e-mail address, and the two parsed codes.
   */
  lemma ParseRowValues(row: Row)
    requires WellFormedRow(row)
    ensures ParseRow(row) == Ok(Candidate(
      row["firstname"], row["lastname"],
      Username(row["firstname"], row["lastname"]), Email(row["firstname"], row["lastname"]),
      row["phone"], row["abteilung"], row["street"], row["city"], row["city_code"], row["postalcode"],
      ParseInt(row["status_id_fk"]).value, ParseInt(row["kurs"]).value))
  {
  }

  // The table.

  /** The table's records by `id_pk`, and the next value of its auto-increment key. */
  datatype Db = Db(users: map<int, AdUser>, nextId: int)

  /**
   * Every record sits under its own `id_pk`, below the next key, and no two
   * records share a user name.
   */
  ghost predicate ValidDb(db: Db)
  {
    && 1 <= db.nextId
    && (forall id :: id in db.users ==> 1 <= id < db.nextId && db.users[id].idPk == id)
    && (forall a, b :: a in db.users && b in db.users && db.users[a].username == db.users[b].username ==> a == b)
  }

  function Usernames(users: map<int, AdUser>): set<string>
  {
    set id | id in users :: users[id].username
  }

  /** The record `INSERT INTO aduser` creates for a row. */
  function NewUser(id: int, c: Candidate): AdUser
  {
    AdUser(id, c.firstname, c.lastname, c.username, c.email, c.phone, c.department,
           c.street, c.city, c.cityCode, c.postalcode, c.statusId, c.ouId)
  }

  /** The SET list of the UPDATE: every field but `id_pk` and `username`. */
  function Overwrite(u: AdUser, c: Candidate): AdUser
  {
    u.(firstname := c.firstname, lastname := c.lastname, email := c.email, phone := c.phone,
       department := c.department, street := c.street, city := c.city, cityCode := c.cityCode,
       postalcode := c.postalcode, statusId := c.statusId, ouId := c.ouId)
  }

  /** The record already holds every value the UPDATE would write. */
  predicate Agrees(u: AdUser, c: Candidate)
  {
    Overwrite(u, c) == u
  }

  /** `UPDATE aduser SET ... WHERE username = %s` */
  function UpdateWhere(users: map<int, AdUser>, c: Candidate): map<int, AdUser>
  {
    map id | id in users :: if users[id].username == c.username then Overwrite(users[id], c) else users[id]
  }

  /** One row's write: an UPDATE when the SELECT finds the user name, an INSERT otherwise. */
  function Upsert(db: Db, c: Candidate): Db
  {
    if c.username in Usernames(db.users) then Db(UpdateWhere(db.users, c), db.nextId)
    else Db(db.users[db.nextId := NewUser(db.nextId, c)], db.nextId + 1)
  }

  /**
   * After one row's write, the record with the row's user name holds the row's
   * values. If the name was there, no record is added and every record keeps
   * its `id_pk` and user name; if not, exactly one record is added under the
   * next key. Either way every other record is unchanged and the table stays valid.
   */
  lemma UpsertEffect(db: Db, c: Candidate)
    requires ValidDb(db)
    ensures ValidDb(Upsert(db, c))
    ensures |Upsert(db, c).users| <= |db.users| + 1
    ensures exists id :: id in Upsert(db, c).users && Upsert(db, c).users[id].username == c.username
                         && Agrees(Upsert(db, c).users[id], c)
    ensures forall id :: id in db.users && db.users[id].username != c.username ==>
      id in Upsert(db, c).users && Upsert(db, c).users[id] == db.users[id]
    ensures c.username in Usernames(db.users) ==>
      && Upsert(db, c).users.Keys == db.users.Keys
      && Upsert(db, c).nextId == db.nextId
      && forall id :: id in db.users ==> Upsert(db, c).users[id].username == db.users[id].username
    ensures c.username !in Usernames(db.users) ==>
      && Upsert(db, c).users.Keys == db.users.Keys + {db.nextId}
      && |Upsert(db, c).users| == |db.users| + 1
      && Upsert(db, c).users[db.nextId] == NewUser(db.nextId, c)
  {
    if c.username in Usernames(db.users) {
      UpsertUpdates(db, c);
    } else {
      UpsertInserts(db, c);
    }
  }

  lemma UpsertUpdates(db: Db, c: Candidate)
    requires ValidDb(db) && c.username in Usernames(db.users)
    ensures ValidDb(Upsert(db, c))
    ensures exists id :: id in Upsert(db, c).users && Upsert(db, c).users[id].username == c.username
                         && Agrees(Upsert(db, c).users[id], c)
    ensures forall id :: id in db.users && db.users[id].username != c.username ==>
      id in Upsert(db, c).users && Upsert(db, c).users[id] == db.users[id]
    ensures Upsert(db, c).users.Keys == db.users.Keys
    ensures Upsert(db, c).nextId == db.nextId
    ensures forall id :: id in db.users ==> Upsert(db, c).users[id].username == db.users[id].username
  {
    var r := Upsert(db, c);
    var id :| id in db.users && db.users[id].username == c.username;
    assert r.users[id] == Overwrite(db.users[id], c);
    assert r.users.Keys == db.users.Keys;
  }

  lemma UpsertInserts(db: Db, c: Candidate)
    requires ValidDb(db) && c.username !in Usernames(db.users)
    ensures ValidDb(Upsert(db, c))
    ensures forall id :: id in db.users ==> id in Upsert(db, c).users && Upsert(db, c).users[id] == db.users[id]
    ensures Upsert(db, c).users.Keys == db.users.Keys + {db.nextId}
    ensures |Upsert(db, c).users| == |db.users| + 1
    ensures Upsert(db, c).users[db.nextId] == NewUser(db.nextId, c)
  {
    var r := Upsert(db, c);
    assert db.nextId !in db.users;
    assert r.users[db.nextId] == NewUser(db.nextId, c);
    assert r.users.Keys == db.users.Keys + {db.nextId};
  }


  // The import loop.

  /** How the loop ended: after the last row, or at the row (0-based) that raised. */
  datatype Outcome = Completed | Aborted(row: nat, error: RowError)

  datatype Run = Run(db: Db, outcome: Outcome)

  /**
   * What reading each row gives, row by row. A helper that makes no claim of
   * its own: its ensures only spell out the comprehension, so that the loop
   * lemmas below need not unfold it.
   */
  function ParseAll(rows: seq<Row>): (r: seq<Result<Candidate, RowError>>)
    ensures |r| == |rows|
    ensures forall i :: 0 <= i < |rows| ==> r[i] == ParseRow(rows[i])
  {
    seq(|rows|, i requires 0 <= i < |rows| => ParseRow(rows[i]))
  }

  /**
   * The loop over rows already read, in file order: the last one is written
   * after all the others, and once one has raised nothing later is written.
   * What was written before the row that raised stays written.
   */
  function Apply(db: Db, parsed: seq<Result<Candidate, RowError>>): Run
  {
    if parsed == [] then Run(db, Completed)
    else
      var prev := Apply(db, parsed[..|parsed| - 1]);
      if prev.outcome.Aborted? then prev
      else
        match parsed[|parsed| - 1]
        case Err(e) => Run(prev.db, Aborted(|parsed| - 1, e))
        case Ok(c) => Run(Upsert(prev.db, c), Completed)
  }

  /** `menue_csv_import` on a file whose rows are `rows`, once the session gate is passed. */
  function ImportAll(db: Db, rows: seq<Row>): Run
  {
    Apply(db, ParseAll(rows))
  }

  lemma {:induction false} ApplyKeepsValid(db: Db, parsed: seq<Result<Candidate, RowError>>)
    requires ValidDb(db)
    ensures ValidDb(Apply(db, parsed).db)
    ensures |Apply(db, parsed).db.users| <= |db.users| + |parsed|
    ensures db.users.Keys <= Apply(db, parsed).db.users.Keys
    ensures db.nextId <= Apply(db, parsed).db.nextId
  {
    if parsed != [] {
      var init := parsed[..|parsed| - 1];
      ApplyKeepsValid(db, init);
      var prev := Apply(db, init);
      if prev.outcome.Completed? && parsed[|parsed| - 1].Ok? {
        UpsertEffect(prev.db, parsed[|parsed| - 1].value);
      }
    }
  }

  /**
   * The table stays valid, gains at most one record per row, and loses none;
   * the next key never goes down.
   */
  lemma ImportKeepsValid(db: Db, rows: seq<Row>)
    requires ValidDb(db)
    ensures ValidDb(ImportAll(db, rows).db)
    ensures |ImportAll(db, rows).db.users| <= |db.users| + |rows|
    ensures db.users.Keys <= ImportAll(db, rows).db.users.Keys
    ensures db.nextId <= ImportAll(db, rows).db.nextId
  {
    ApplyKeepsValid(db, ParseAll(rows));
  }

  lemma {:induction false} ApplyOutcome(db: Db, parsed: seq<Result<Candidate, RowError>>)
    ensures Apply(db, parsed).outcome.Completed? <==> forall i :: 0 <= i < |parsed| ==> parsed[i].Ok?
    ensures Apply(db, parsed).outcome.Aborted? ==>
      var k := Apply(db, parsed).outcome.row;
      && k < |parsed|
      && parsed[k] == Err(Apply(db, parsed).outcome.error)
      && (forall i :: 0 <= i < k ==> parsed[i].Ok?)
      && Apply(db, parsed[..k]) == Run(Apply(db, parsed).db, Completed)
  {
    if parsed != [] {
      var init := parsed[..|parsed| - 1];
      ApplyOutcome(db, init);
      var prev := Apply(db, init);
      assert forall i :: 0 <= i < |init| ==> parsed[i] == init[i];
      if prev.outcome.Aborted? {
        var k := prev.outcome.row;
        assert Apply(db, parsed) == prev;
        assert parsed[..k] == init[..k];
      } else {
        assert forall i :: 0 <= i < |init| ==> parsed[i].Ok?;
      }
    }
  }

  /**
   * The import completes exactly when every row is well formed. When it stops
   * at row k, row k is the first bad row, it raised the reported error, and the
   * table is what importing the rows before it leaves: those stay written, the
   * rows after it are never read.
   */
  lemma ImportOutcome(db: Db, rows: seq<Row>)
    ensures ImportAll(db, rows).outcome.Completed? <==> forall i :: 0 <= i < |rows| ==> WellFormedRow(rows[i])
    ensures ImportAll(db, rows).outcome.Aborted? ==>
      var k := ImportAll(db, rows).outcome.row;
      && k < |rows|
      && ParseRow(rows[k]) == Err(ImportAll(db, rows).outcome.error)
      && (forall i :: 0 <= i < k ==> WellFormedRow(rows[i]))
      && ImportAll(db, rows[..k]) == Run(ImportAll(db, rows).db, Completed)
  {
    var parsed := ParseAll(rows);
    ApplyOutcome(db, parsed);
    var r := Apply(db, parsed);
    if r.outcome.Aborted? {
      var k := r.outcome.row;
      assert ParseAll(rows[..k]) == parsed[..k];
    }
  }

  /** The loop's step: row `i` is written, or ends the loop, on top of what the rows before it left. */
  lemma ApplyStep(db: Db, parsed: seq<Result<Candidate, RowError>>, i: nat, now: Db)
    requires i < |parsed|
    requires Apply(db, parsed[..i]) == Run(now, Completed)
    ensures Apply(db, parsed[..i + 1]) == match parsed[i]
      case Err(e) => Run(now, Aborted(i, e))
      case Ok(c) => Run(Upsert(now, c), Completed)
  {
    assert parsed[..i + 1][..i] == parsed[..i];
  }

  /** Once a prefix has raised, further rows change nothing. */
  lemma {:induction false} AbortedStays(db: Db, parsed: seq<Result<Candidate, RowError>>, more: seq<Result<Candidate, RowError>>)
    requires Apply(db, parsed).outcome.Aborted?
    ensures Apply(db, parsed + more) == Apply(db, parsed)
  {
    if more != [] {
      var init := more[..|more| - 1];
      AbortedStays(db, parsed, init);
      assert (parsed + more)[..|parsed + more| - 1] == parsed + init;
    } else {
      assert parsed + more == parsed;
    }
  }

  lemma {:induction false} ApplyFrame(db: Db, parsed: seq<Result<Candidate, RowError>>, id: int)
    requires ValidDb(db) && id in db.users
    requires forall i :: 0 <= i < |parsed| && parsed[i].Ok? ==> parsed[i].value.username != db.users[id].username
    ensures id in Apply(db, parsed).db.users && Apply(db, parsed).db.users[id] == db.users[id]
  {
    if parsed != [] {
      var init := parsed[..|parsed| - 1];
      assert forall i :: 0 <= i < |init| ==> init[i] == parsed[i];
      ApplyFrame(db, init, id);
      ApplyKeepsValid(db, init);
      var prev := Apply(db, init);
      if prev.outcome.Completed? && parsed[|parsed| - 1].Ok? {
        var c := parsed[|parsed| - 1].value;
        assert c.username != prev.db.users[id].username;
        UpsertEffect(prev.db, c);
      }
    }
  }

  /**
   * A record whose user name no imported row derives is left as it was; in
   * particular, nothing is ever deleted.
   */
  lemma ImportFrame(db: Db, rows: seq<Row>, id: int)
    requires ValidDb(db) && id in db.users
    requires forall i :: 0 <= i < |rows| && ParseRow(rows[i]).Ok? ==>
      ParseRow(rows[i]).value.username != db.users[id].username
    ensures id in ImportAll(db, rows).db.users && ImportAll(db, rows).db.users[id] == db.users[id]
  {
    ApplyFrame(db, ParseAll(rows), id);
  }

  // Replaying a file.

  /** The values of the last row among `parsed` that was read without error and derives user name `u`. */
  function LastFor(parsed: seq<Result<Candidate, RowError>>, u: string): Option<Candidate>
  {
    if parsed == [] then None
    else
      var last := parsed[|parsed| - 1];
      if last.Ok? && last.value.username == u then Some(last.value)
      else LastFor(parsed[..|parsed| - 1], u)
  }

  function Refresh(u: AdUser, last: Option<Candidate>): AdUser
  {
    match last
    case Some(c) => Overwrite(u, c)
    case None => u
  }

  /** Every record overwritten with the last row that names it. */
  function Overlay(users: map<int, AdUser>, parsed: seq<Result<Candidate, RowError>>): map<int, AdUser>
  {
    map id | id in users :: Refresh(users[id], LastFor(parsed, users[id].username))
  }

  /** Every row read without error has its user name in the table already. */
  predicate Covers(users: map<int, AdUser>, parsed: seq<Result<Candidate, RowError>>)
  {
    forall i :: 0 <= i < |parsed| && parsed[i].Ok? ==> parsed[i].value.username in Usernames(users)
  }

  lemma OverwriteTwice(u: AdUser, a: Candidate, c: Candidate)
    ensures Overwrite(Overwrite(u, a), c) == Overwrite(u, c)
    ensures Agrees(Overwrite(u, c), c)
    ensures Agrees(NewUser(u.idPk, c), c)
  {
  }

  lemma OverlayOfNothing(users: map<int, AdUser>, parsed: seq<Result<Candidate, RowError>>)
    requires parsed == []
    ensures Overlay(users, parsed) == users
  {
    var o := Overlay(users, parsed);
    forall id | id in users ensures o[id] == users[id] {
      assert LastFor(parsed, users[id].username) == None;
    }
  }

  lemma OverlayKeepsUsernames(users: map<int, AdUser>, parsed: seq<Result<Candidate, RowError>>)
    ensures Usernames(Overlay(users, parsed)) == Usernames(users)
  {
    var o := Overlay(users, parsed);
    assert forall id :: id in users ==> o[id].username == users[id].username;
    assert Usernames(o) <= Usernames(users);
    forall u | u in Usernames(users) ensures u in Usernames(o) {
      var id :| id in users && users[id].username == u;
      assert o[id].username == u;
    }
  }

  /**
   * When every row is read without error and every row's user name is already
   * in the table, the loop only updates: no record is added, and each record
   * ends up with the values of the last row that names it.
   */
  lemma {:induction false} UpdateOnlyApply(db: Db, parsed: seq<Result<Candidate, RowError>>)
    requires forall i :: 0 <= i < |parsed| ==> parsed[i].Ok?
    requires Covers(db.users, parsed)
    ensures Apply(db, parsed) == Run(Db(Overlay(db.users, parsed), db.nextId), Completed)
  {
    if parsed == [] {
      OverlayOfNothing(db.users, parsed);
    } else {
      var init := parsed[..|parsed| - 1];
      UpdateOnlyApply(db, init);
      var c := parsed[|parsed| - 1].value;
      var o := Overlay(db.users, init);
      OverlayKeepsUsernames(db.users, init);
      assert parsed[|parsed| - 1].Ok?;
      assert c.username in Usernames(db.users);
      var next := UpdateWhere(o, c);
      forall id | id in db.users
        ensures next[id] == Overlay(db.users, parsed)[id]
      {
        var x := db.users[id];
        if x.username == c.username {
          match LastFor(init, x.username) {
            case Some(a) => OverwriteTwice(x, a, c);
            case None =>
          }
        }
      }
      assert next == Overlay(db.users, parsed);
    }
  }

  /** A write keeps every user name in the table and adds the row's own. */
  lemma UpsertAddsUsername(db: Db, c: Candidate)
    requires ValidDb(db)
    ensures Usernames(Upsert(db, c).users) == Usernames(db.users) + {c.username}
  {
    var r := Upsert(db, c);
    if c.username in Usernames(db.users) {
      assert forall id :: id in db.users ==> r.users[id].username == db.users[id].username;
      assert Usernames(r.users) == Usernames(db.users);
    } else {
      assert db.nextId !in db.users;
      assert r.users[db.nextId].username == c.username;
      assert forall id :: id in db.users ==> r.users[id] == db.users[id];
    }
  }

  /** One more written row keeps the table settled with respect to the rows so far. */
  lemma UpsertSettles(db: Db, init: seq<Result<Candidate, RowError>>, c: Candidate)
    requires ValidDb(db)
    requires Overlay(db.users, init) == db.users && Covers(db.users, init)
    ensures Overlay(Upsert(db, c).users, init + [Ok(c)]) == Upsert(db, c).users
    ensures Covers(Upsert(db, c).users, init + [Ok(c)])
  {
    var parsed := init + [Ok(c)];
    assert parsed[..|parsed| - 1] == init;
    var r := Upsert(db, c);
    UpsertAddsUsername(db, c);
    assert db.nextId !in db.users;
    forall id | id in r.users
      ensures Overlay(r.users, parsed)[id] == r.users[id]
    {
      var x := r.users[id];
      if x.username == c.username {
        assert LastFor(parsed, x.username) == Some(c);
        if c.username in Usernames(db.users) {
          OverwriteTwice(db.users[id], c, c);
        } else {
          OverwriteTwice(x, c, c);
        }
      } else {
        assert LastFor(parsed, x.username) == LastFor(init, x.username);
        assert id in db.users && x == db.users[id];
        assert Overlay(db.users, init)[id] == db.users[id];
      }
    }
    forall i | 0 <= i < |parsed| && parsed[i].Ok?
      ensures parsed[i].value.username in Usernames(r.users)
    {
      if i < |init| {
        assert parsed[i] == init[i];
      }
    }
  }

  /**
   * After a completed loop every record already holds the values of the last
   * row that names it, and every row's user name is in the table.
   */
  lemma {:induction false} ApplySettles(db: Db, parsed: seq<Result<Candidate, RowError>>)
    requires ValidDb(db)
    requires Apply(db, parsed).outcome.Completed?
    ensures Overlay(Apply(db, parsed).db.users, parsed) == Apply(db, parsed).db.users
    ensures Covers(Apply(db, parsed).db.users, parsed)
  {
    if parsed == [] {
      OverlayOfNothing(db.users, parsed);
    } else {
      var init := parsed[..|parsed| - 1];
      ApplySettles(db, init);
      ApplyKeepsValid(db, init);
      var c := parsed[|parsed| - 1].value;
      assert parsed == init + [Ok(c)];
      UpsertSettles(Apply(db, init).db, init, c);
    }
  }

  lemma ReplayCompleted(db: Db, parsed: seq<Result<Candidate, RowError>>)
    requires ValidDb(db)
    requires Apply(db, parsed).outcome.Completed?
    ensures Apply(Apply(db, parsed).db, parsed) == Apply(db, parsed)
  {
    var r := Apply(db, parsed);
    ApplyOutcome(db, parsed);
    ApplySettles(db, parsed);
    UpdateOnlyApply(r.db, parsed);
  }

  lemma ReplayAborted(db: Db, parsed: seq<Result<Candidate, RowError>>)
    requires ValidDb(db)
    requires Apply(db, parsed).outcome.Aborted?
    ensures Apply(Apply(db, parsed).db, parsed) == Apply(db, parsed)
  {
    var r := Apply(db, parsed);
    ApplyOutcome(db, parsed);
    var k := r.outcome.row;
    var prefix := parsed[..k];
    ReplayCompleted(db, prefix);
    var upTo := parsed[..k + 1];
    assert upTo[..k] == prefix;
    assert Apply(r.db, upTo) == r;
    AbortedStays(r.db, upTo, parsed[k + 1..]);
    assert upTo + parsed[k + 1..] == parsed;
  }

  /**
   * Importing the same file again, right after importing it, changes nothing
   * and ends the same way: no record is inserted a second time.
   */
  lemma ReplayIsIdempotent(db: Db, rows: seq<Row>)
    requires ValidDb(db)
    ensures ImportAll(ImportAll(db, rows).db, rows) == ImportAll(db, rows)
  {
    var parsed := ParseAll(rows);
    if Apply(db, parsed).outcome.Completed? {
      ReplayCompleted(db, parsed);
    } else {
      ReplayAborted(db, parsed);
    }
  }

  // Delete and deactivate.

  /** `DELETE FROM aduser WHERE id_pk = %s` */
  function Deleted(db: Db, id: int): Db
  {
    Db(db.users - {id}, db.nextId)
  }

  /** `UPDATE aduser SET status_id_fk = 2 WHERE id_pk = %s` */
  function Deactivated(db: Db, id: int): Db
  {
    if id in db.users then Db(db.users[id := db.users[id].(statusId := Inactive)], db.nextId) else db
  }

  /** Delete removes the selected record, at most one, and leaves every other record as it was. */
  lemma DeleteEffect(db: Db, id: int)
    requires ValidDb(db)
    ensures ValidDb(Deleted(db, id))
    ensures Deleted(db, id).users.Keys == db.users.Keys - {id}
    ensures |Deleted(db, id).users| == if id in db.users then |db.users| - 1 else |db.users|
    ensures forall k :: k in Deleted(db, id).users ==> Deleted(db, id).users[k] == db.users[k]
  {
  }

  /**
   * Deactivate sets the selected record's status to 2 and changes no other
   * field and no other record; doing it twice is doing it once.
   */
  lemma DeactivateEffect(db: Db, id: int)
    requires ValidDb(db)
    ensures ValidDb(Deactivated(db, id))
    ensures Deactivated(db, id).users.Keys == db.users.Keys
    ensures id in db.users ==> Deactivated(db, id).users[id].statusId == Inactive
    ensures id in db.users ==> Deactivated(db, id).users[id].(statusId := db.users[id].statusId) == db.users[id]
    ensures forall k :: k in db.users && k != id ==> Deactivated(db, id).users[k] == db.users[k]
    ensures Deactivated(Deactivated(db, id), id) == Deactivated(db, id)
  {
  }

  /**
   * The `aduser` table behind the connection, with the statements the main
   * window sends to it.
   */
  class UserTable {
    var users: map<int, AdUser>
    var nextId: int

    function Contents(): Db
      reads this
    {
      Db(users, nextId)
    }

    ghost predicate Valid()
      reads this
    {
      ValidDb(Contents())
    }

    /** An empty table whose auto-increment key starts at 1. */
    constructor ()
      ensures Valid() && users == map[] && nextId == 1
    {
      users := map[];
      nextId := 1;
    }

    /** `SELECT id_pk FROM aduser WHERE username = '...'` returns a row. */
    function HasUsername(u: string): (found: bool)
      reads this
      ensures found <==> exists id :: id in users && users[id].username == u
    {
      u in Usernames(users)
    }

    /** The INSERT of one row: a new record under the next key. */
    method Insert(c: Candidate)
      modifies this
      ensures users == old(users)[old(nextId) := NewUser(old(nextId), c)]
      ensures nextId == old(nextId) + 1
    {
      users := users[nextId := NewUser(nextId, c)];
      nextId := nextId + 1;
    }

    /** The UPDATE of one row, by user name. */
    method UpdateByUsername(c: Candidate)
      modifies this
      ensures users == UpdateWhere(old(users), c)
      ensures nextId == old(nextId)
    {
      users := UpdateWhere(users, c);
    }

    /** One row's write: the user-name lookup, then the UPDATE or the INSERT. */
    method Store(c: Candidate)
      requires Valid()
      modifies this
      ensures Valid()
      ensures Contents() == Upsert(old(Contents()), c)
    {
      UpsertEffect(Contents(), c);
      if HasUsername(c.username) {
        UpdateByUsername(c);
      } else {
        Insert(c);
      }
    }

    method DeleteById(id: int)
      requires Valid()
      modifies this
      ensures Valid()
      ensures Contents() == Deleted(old(Contents()), id)
    {
      DeleteEffect(Contents(), id);
      users := users - {id};
    }

    method SetInactive(id: int)
      requires Valid()
      modifies this
      ensures Valid()
      ensures Contents() == Deactivated(old(Contents()), id)
    {
      DeactivateEffect(Contents(), id);
      if id in users {
        users := users[id := users[id].(statusId := Inactive)];
      }
    }

    /**
     * The loop of `menue_csv_import`: each row is read, its user name looked
     * up, and the record updated or inserted; the first row that raises ends
     * the loop, and what was written before it stays.
     */
    method ImportRows(rows: seq<Row>) returns (outcome: Outcome)
      requires Valid()
      modifies this
      ensures Valid()
      ensures Contents() == ImportAll(old(Contents()), rows).db
      ensures outcome == ImportAll(old(Contents()), rows).outcome
    {
      ghost var parsed := ParseAll(rows);
      var i := 0;
      while i < |rows|
        invariant 0 <= i <= |rows|
        invariant Valid()
        invariant Apply(old(Contents()), parsed[..i]) == Run(Contents(), Completed)
      {
        var read := ParseRow(rows[i]);
        ApplyStep(old(Contents()), parsed, i, Contents());
        match read {
          case Err(e) =>
            AbortedStays(old(Contents()), parsed[..i + 1], parsed[i + 1..]);
            assert parsed[..i + 1] + parsed[i + 1..] == parsed;
            return Aborted(i, e);
          case Ok(c) =>
            Store(c);
        }
        i := i + 1;
      }
      assert parsed[..i] == parsed;
      return Completed;
    }
  }
}
