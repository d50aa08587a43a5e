/** The certificate database of the CA command over whole sessions: issuing, revoking,
    marking valid and expiring. */
module CertDatabase {
  import opened Options
  import opened Revocation

  datatype Status = Valid | Revoked | Expired | Suspended

  datatype Row = Row(status: Status, exp: string, rev: string, serial: string, name: string)

  /** Rows in file order.  `byName` is the name index, kept only if subjects must be
      unique; rows enter it when valid and are not taken out when their status changes. */
  datatype Db = Db(rows: seq<Row>, byName: map<string, nat>, unique: bool)

  datatype Cert = Cert(name: string, serial: string, exp: string)

  /** Dates as points in time, where they can be parsed. */
  type Dates = string -> Option<int>

  /** The serial index ignores leading zeros. */
  function Key(serial: string): string {
    if serial != [] && serial[0] == '0' then Key(serial[1..]) else serial
  }

  /** A certificate without a subject is filed under its serial number. */
  function FiledName(c: Cert): string {
    if c.name == "" then c.serial else c.name
  }

  function FindSerial(rows: seq<Row>, serial: string): (i: int)
    ensures -1 <= i < |rows|
    ensures i >= 0 ==> Key(rows[i].serial) == Key(serial)
    ensures i < 0 ==> forall k :: 0 <= k < |rows| ==> Key(rows[k].serial) != Key(serial)
  {
    if rows == [] then -1
    else if Key(rows[|rows| - 1].serial) == Key(serial) then |rows| - 1
    else FindSerial(rows[..|rows| - 1], serial)
  }

  predicate Clashes(db: Db, c: Cert) {
    FindSerial(db.rows, c.serial) >= 0 || (db.unique && FiledName(c) in db.byName)
  }

  /** TXT_DB_insert of a valid row. */
  function Insert(db: Db, c: Cert): Db {
    db.(rows := db.rows + [Row(Valid, c.exp, "", c.serial, FiledName(c))],
        byName := if db.unique then db.byName[FiledName(c) := |db.rows|] else db.byName)
  }

  function Issue(db: Db, c: Cert): (bool, Db) {
    if Clashes(db, c) then (false, db) else (true, Insert(db, c))
  }

  /** do_revoke.  An unknown certificate is first inserted as valid, and stays in the
      database even if the revocation then fails. */
  function Revoke(db: Db, c: Cert, t: RevType, arg: string, now: string, syn: Syntax): (bool, Db) {
    var i := FindSerial(db.rows, c.serial);
    if i >= 0 then RevokeRow(db, i, c, t, arg, now, syn)
    else if Clashes(db, c) then (false, db)
    else if t == RevValid then (true, Insert(db, c))
    else RevokeRow(Insert(db, c), |db.rows|, c, t, arg, now, syn)
  }

  function RevokeRow(db: Db, i: nat, c: Cert, t: RevType, arg: string, now: string, syn: Syntax): (bool, Db)
    requires i < |db.rows|
  {
    var f := Fields(t, arg, syn);
    if db.rows[i].name != FiledName(c) || t == RevValid || db.rows[i].status == Revoked || f.None? then (false, db)
    else
      (true, db.(rows := db.rows[i := db.rows[i].(status := Revoked, rev := Joined(now, f.value.0, f.value.1))]))
  }

  /** The first `k` rows brought up to date. */
  function ExpireUpTo(rows: seq<Row>, k: nat, dates: Dates, now: int): (r: seq<Row>)
    requires k <= |rows|
    ensures |r| == |rows|
  {
    seq(|rows|, i requires 0 <= i < |rows| =>
      if i < k && rows[i].status == Valid && dates(rows[i].exp).Some? && dates(rows[i].exp).value <= now
      then rows[i].(status := Expired) else rows[i])
  }

  /** How many of the first `k` rows are valid and due. */
  function Due(rows: seq<Row>, k: nat, dates: Dates, now: int): nat
    requires k <= |rows|
  {
    if k == 0 then 0
    else
      var r := rows[k - 1];
      Due(rows, k - 1, dates, now) +
      if r.status == Valid && dates(r.exp).Some? && dates(r.exp).value <= now then 1 else 0
  }

  /** Leading zeros of a serial are ignored, and nothing else is. */
  lemma {:induction false} KeyStrips(s: string)
    ensures Key(s) == "" || Key(s)[0] != '0'
    ensures Key("0" + s) == Key(s)
    ensures s == "" || s[0] != '0' ==> Key(s) == s
  {
    assert ("0" + s)[1..] == s;
    if s != [] && s[0] == '0' { KeyStrips(s[1..]); }
  }

  /** A certificate is issued exactly if no row has its serial and, where subjects must be
      unique, none is filed under its subject (its serial, if that is empty).  It is then
      the last row, valid and without revocation data; otherwise nothing changes. */
  lemma IssueExact(db: Db, c: Cert)
    ensures var (ok, d) := Issue(db, c); var filed := if c.name != "" then c.name else c.serial;
      && (ok <==>
           && (forall i :: 0 <= i < |db.rows| ==> Key(db.rows[i].serial) != Key(c.serial))
           && (db.unique ==> filed !in db.byName))
      && (ok ==> d.rows == db.rows + [Row(Valid, c.exp, "", c.serial, filed)] && d.unique == db.unique
                 && d.byName == if db.unique then db.byName[filed := |db.rows|] else db.byName)
      && (!ok ==> d == db)
  {
    hide Key;
    var i := FindSerial(db.rows, c.serial);
    if i >= 0 { assert Key(db.rows[i].serial) == Key(c.serial); }
  }

  /** A certificate marked valid is added like an issued one. */
  lemma MarkedValid(db: Db, c: Cert, arg: string, now: string, syn: Syntax)
    ensures Revoke(db, c, RevValid, arg, now, syn) == Issue(db, c)
  {
  }

  /** Whether a row is due: valid, and its date is not after `now`. */
  predicate IsDue(r: Row, dates: Dates, now: int) {
    r.status == Valid && dates(r.exp).Some? && dates(r.exp).value <= now
  }

  /** Row by row: of the first `k` rows exactly those that are due become expired, and
      nothing else about them changes; the other rows stay. */
  lemma ExpireExact(rows: seq<Row>, k: nat, dates: Dates, now: int, i: nat)
    requires k <= |rows| && i < |rows|
    ensures var r := ExpireUpTo(rows, k, dates, now)[i];
      && (i < k && IsDue(rows[i], dates, now) ==>
           r.status == Expired && r.(status := Valid) == rows[i])
      && (!(i < k && IsDue(rows[i], dates, now)) ==> r == rows[i])
  {
  }

  /** The rows whose status differs. */
  function Changed(rows: seq<Row>, rows': seq<Row>): set<int>
    requires |rows| == |rows'|
  {
    set i | 0 <= i < |rows| && rows[i].status != rows'[i].status
  }

  lemma ChangedAt(rows: seq<Row>, k: nat, dates: Dates, now: int, i: int)
    requires k <= |rows|
    ensures i in Changed(rows, ExpireUpTo(rows, k, dates, now)) <==> 0 <= i < k && IsDue(rows[i], dates, now)
  {
  }

  /** `Due` counts the rows that change. */
  lemma {:induction false} DueCounts(rows: seq<Row>, k: nat, dates: Dates, now: int)
    requires k <= |rows|
    ensures Due(rows, k, dates, now) == |Changed(rows, ExpireUpTo(rows, k, dates, now))|
  {
    hide Changed, ExpireUpTo, IsDue;
    var after := Changed(rows, ExpireUpTo(rows, k, dates, now));
    if k == 0 {
      forall i ensures i !in after { ChangedAt(rows, 0, dates, now, i); }
      assert after == {};
    } else {
      DueCounts(rows, k - 1, dates, now);
      var before := Changed(rows, ExpireUpTo(rows, k - 1, dates, now));
      DueNext(rows, k, dates, now);
      var due := IsDue(rows[k - 1], dates, now);
      forall i
        ensures i in after <==> i in before || (i == k - 1 && due)
      {
        ChangedAt(rows, k - 1, dates, now, i);
        ChangedAt(rows, k, dates, now, i);
      }
      ChangedAt(rows, k - 1, dates, now, k - 1);
      if due {
        assert after == before + {k - 1};
      } else {
        assert after == before;
      }
    }
  }

  lemma DueNext(rows: seq<Row>, k: nat, dates: Dates, now: int)
    requires 0 < k <= |rows|
    ensures Due(rows, k, dates, now) == Due(rows, k - 1, dates, now) + if IsDue(rows[k - 1], dates, now) then 1 else 0
  {
  }

  // ----- what holds of every database that loads -----

  ghost predicate Loadable(db: Db, dates: Dates, syn: Syntax) {
    && (forall i :: 0 <= i < |db.rows| ==> RowOk(db.rows[i], dates, syn))
    && (forall i, j :: 0 <= i < j < |db.rows| ==> Key(db.rows[i].serial) != Key(db.rows[j].serial))
    && (db.unique ==>
         && (forall i :: 0 <= i < |db.rows| && db.rows[i].status == Valid ==>
              db.rows[i].name in db.byName && db.byName[db.rows[i].name] == i)
         && (forall n :: n in db.byName ==> db.byName[n] < |db.rows| && db.rows[db.byName[n]].name == n))
  }

  /** The checks of ca_main on loading a row. */
  ghost predicate RowOk(r: Row, dates: Dates, syn: Syntax) {
    && (r.status != Revoked ==> r.rev == "")
    && (r.status == Revoked ==> r.rev != "" && Unpack(r.rev, syn).Some?)
    && dates(r.exp).Some?
  }

  /** How one row may change: never once it is revoked; otherwise only by expiring or
      by being revoked. */
  predicate RowEvolves(r: Row, r': Row) {
    && r'.serial == r.serial && r'.name == r.name && r'.exp == r.exp
    && (r' == r
        || (r.status == Valid && r' == r.(status := Expired))
        || (r.status != Revoked && r'.status == Revoked))
  }

  predicate Evolves(rows: seq<Row>, rows': seq<Row>) {
    |rows| <= |rows'| && forall i :: 0 <= i < |rows| ==> RowEvolves(rows[i], rows'[i])
  }

  lemma EvolvesTwice(a: seq<Row>, b: seq<Row>, c: seq<Row>)
    requires Evolves(a, b) && Evolves(b, c)
    ensures Evolves(a, c)
  {
    forall i | 0 <= i < |a|
      ensures RowEvolves(a[i], c[i])
    {
      assert RowEvolves(a[i], b[i]) && RowEvolves(b[i], c[i]);
    }
  }

  lemma NoClash(db: Db, c: Cert)
    requires !Clashes(db, c)
    ensures forall i :: 0 <= i < |db.rows| ==> Key(db.rows[i].serial) != Key(c.serial)
    ensures db.unique ==> FiledName(c) !in db.byName
  {
  }

  lemma InsertKeeps(db: Db, c: Cert, dates: Dates, syn: Syntax)
    requires Loadable(db, dates, syn) && !Clashes(db, c) && dates(c.exp).Some?
    ensures Loadable(Insert(db, c), dates, syn) && Evolves(db.rows, Insert(db, c).rows)
  {
    hide Key, FiledName, RowEvolves, Clashes;
    var d := Insert(db, c);
    assert forall i :: 0 <= i < |db.rows| ==> d.rows[i] == db.rows[i];
    NoClash(db, c);
    EvolvesNot(db.rows);
  }

  lemma RevokeRowKeeps(db: Db, i: nat, c: Cert, t: RevType, arg: string, now: string, dates: Dates, syn: Syntax)
    requires Loadable(db, dates, syn) && i < |db.rows|
    requires now != "" && ',' !in now && syn.utcTime(now)
    ensures Loadable(RevokeRow(db, i, c, t, arg, now, syn).1, dates, syn)
    ensures Evolves(db.rows, RevokeRow(db, i, c, t, arg, now, syn).1.rows)
  {
    if RevokeRow(db, i, c, t, arg, now, syn).0 {
      RoundTrip(t, arg, now, syn);
    }
  }

  lemma RevokeKeeps(db: Db, c: Cert, t: RevType, arg: string, now: string, dates: Dates, syn: Syntax)
    requires Loadable(db, dates, syn) && dates(c.exp).Some?
    requires now != "" && ',' !in now && syn.utcTime(now)
    ensures Loadable(Revoke(db, c, t, arg, now, syn).1, dates, syn)
    ensures Evolves(db.rows, Revoke(db, c, t, arg, now, syn).1.rows)
  {
    hide Loadable, Evolves, RevokeRow, Insert;
    EvolvesNot(db.rows);
    var i := FindSerial(db.rows, c.serial);
    if i >= 0 {
      RevokeRowKeeps(db, i, c, t, arg, now, dates, syn);
    } else if !Clashes(db, c) {
      InsertKeeps(db, c, dates, syn);
      InsertSize(db, c);
      if t != RevValid {
        RevokeRowKeeps(Insert(db, c), |db.rows|, c, t, arg, now, dates, syn);
        EvolvesTwice(db.rows, Insert(db, c).rows,
                     RevokeRow(Insert(db, c), |db.rows|, c, t, arg, now, syn).1.rows);
      }
    }
  }

  lemma EvolvesNot(rows: seq<Row>)
    ensures Evolves(rows, rows)
  {
  }

  lemma InsertSize(db: Db, c: Cert)
    ensures |Insert(db, c).rows| == |db.rows| + 1
  {
  }

  lemma ExpireKeeps(db: Db, k: nat, dates: Dates, now: int, syn: Syntax)
    requires Loadable(db, dates, syn) && k <= |db.rows|
    ensures Loadable(db.(rows := ExpireUpTo(db.rows, k, dates, now)), dates, syn)
    ensures Evolves(db.rows, ExpireUpTo(db.rows, k, dates, now))
  {
  }

  // ----- sessions -----

  datatype Op =
    | DoIssue(cert: Cert)
    | DoRevoke(cert: Cert, kind: RevType, arg: string, now: string)
    | DoExpire(time: int)

  predicate OpOk(op: Op, dates: Dates, syn: Syntax) {
    match op
    case DoIssue(c) => dates(c.exp).Some?
    case DoRevoke(c, _, _, now) => dates(c.exp).Some? && now != "" && ',' !in now && syn.utcTime(now)
    case DoExpire(_) => true
  }

  function Apply(db: Db, op: Op, dates: Dates, syn: Syntax): Db {
    match op
    case DoIssue(c) => Issue(db, c).1
    case DoRevoke(c, t, arg, now) => Revoke(db, c, t, arg, now, syn).1
    case DoExpire(time) => db.(rows := ExpireUpTo(db.rows, |db.rows|, dates, time))
  }

  function Session(db: Db, ops: seq<Op>, dates: Dates, syn: Syntax): Db {
    if ops == [] then db
    else Apply(Session(db, ops[..|ops| - 1], dates, syn), ops[|ops| - 1], dates, syn)
  }

  /** What an expiry does to a database that loads: every due row expires, no other row
      changes. */
  lemma ExpireAll(db: Db, time: int, dates: Dates, syn: Syntax, i: nat)
    requires Loadable(db, dates, syn) && i < |db.rows|
    ensures var r := Apply(db, DoExpire(time), dates, syn).rows;
      && |r| == |db.rows|
      && r[i] == if db.rows[i].status == Valid && dates(db.rows[i].exp).value <= time
                 then db.rows[i].(status := Expired) else db.rows[i]
  {
  }

  lemma ApplyKeeps(db: Db, op: Op, dates: Dates, syn: Syntax)
    requires Loadable(db, dates, syn) && OpOk(op, dates, syn)
    ensures Loadable(Apply(db, op, dates, syn), dates, syn)
    ensures Evolves(db.rows, Apply(db, op, dates, syn).rows)
  {
    hide Loadable, Evolves, Revoke, Insert, ExpireUpTo;
    EvolvesNot(db.rows);
    match op
    case DoIssue(c) => if !Clashes(db, c) { InsertKeeps(db, c, dates, syn); }
    case DoRevoke(c, t, arg, now) => RevokeKeeps(db, c, t, arg, now, dates, syn);
    case DoExpire(time) => ExpireKeeps(db, |db.rows|, dates, time, syn);
  }

  /** Over every session from a database that loads: the result loads again (serials
      unique, revocation data exactly on revoked rows and readable), no row is lost,
      reordered or renamed, and revoked rows never change. */
  lemma {:induction false} SessionKeeps(db: Db, ops: seq<Op>, dates: Dates, syn: Syntax)
    requires Loadable(db, dates, syn)
    requires forall i :: 0 <= i < |ops| ==> OpOk(ops[i], dates, syn)
    ensures Loadable(Session(db, ops, dates, syn), dates, syn)
    ensures Evolves(db.rows, Session(db, ops, dates, syn).rows)
  {
    hide Loadable, Evolves, Apply, OpOk;
    if ops == [] {
      EvolvesNot(db.rows);
    } else {
      var before := Session(db, ops[..|ops| - 1], dates, syn);
      SessionKeeps(db, ops[..|ops| - 1], dates, syn);
      ApplyKeeps(before, ops[|ops| - 1], dates, syn);
      EvolvesTwice(db.rows, before.rows, Session(db, ops, dates, syn).rows);
    }
  }

  /** A certificate once revoked cannot be revoked, issued or marked valid again. */
  lemma RevokedIsFinal(db: Db, i: nat, c: Cert, t: RevType, arg: string, now: string, dates: Dates, syn: Syntax)
    requires Loadable(db, dates, syn) && i < |db.rows| && db.rows[i].status == Revoked
    requires Key(c.serial) == Key(db.rows[i].serial)
    ensures Issue(db, c) == (false, db) && Revoke(db, c, t, arg, now, syn) == (false, db)
  {
    var k := FindSerial(db.rows, c.serial);
    assert k >= 0;
    assert k == i;
  }

  /** A revocation succeeds exactly for a certificate that is, or can be, filed under
      its name, is not revoked yet, and comes with a valid argument; a known one cannot
      be marked valid. */
  lemma RevokeSucceeds(db: Db, c: Cert, t: RevType, arg: string, now: string, syn: Syntax)
    ensures Revoke(db, c, t, arg, now, syn).0 <==>
      if exists i :: 0 <= i < |db.rows| && Key(db.rows[i].serial) == Key(c.serial) then
        var r := db.rows[FindSerial(db.rows, c.serial)];
        t != RevValid && r.name == FiledName(c) && r.status != Revoked && Fields(t, arg, syn).Some?
      else
        !(db.unique && FiledName(c) in db.byName) && (t == RevValid || Fields(t, arg, syn).Some?)
  {
    hide Fields;
    var i := FindSerial(db.rows, c.serial);
    if i >= 0 { assert Key(db.rows[i].serial) == Key(c.serial); }
  }

  /** A failed revocation changes the database exactly when the certificate was unknown
      and could be filed: it then stays behind as a valid row, and what made the
      revocation fail is its argument. */
  lemma RevokeFailure(db: Db, c: Cert, t: RevType, arg: string, now: string, syn: Syntax)
    requires !Revoke(db, c, t, arg, now, syn).0
    ensures var d := Revoke(db, c, t, arg, now, syn).1;
      && (d != db <==> FindSerial(db.rows, c.serial) < 0 && !Clashes(db, c))
      && (d != db ==> d == Insert(db, c) && t != RevValid && Fields(t, arg, syn).None?)
  {
    hide Fields;
    InsertSize(db, c);
  }

  /** An input: a certificate revoked with a reason of the wrong name ends up valid. */
  lemma RevokedIntoValid(db: Db, c: Cert, now: string, syn: Syntax)
    requires !Clashes(db, c)
    ensures var (ok, d) := Revoke(db, c, RevCrlReason, "lost", now, syn);
      !ok && d.rows == db.rows + [Row(Valid, c.exp, "", c.serial, FiledName(c))]
  {
    assert ReasonIndex("lost", 8) < 0 by {
      forall i | 0 <= i < 8
        ensures !SameFold("lost", REASONS[i])
      {
        assert |REASONS[i]| != 4;
      }
    }
  }

  /** Row `i` of `rows'` is the certificate, now revoked; the other rows are as before. */
  predicate OnlyRevoked(rows: seq<Row>, rows': seq<Row>, i: int, c: Cert) {
    && |rows| <= |rows'| && 0 <= i < |rows'| && Key(rows'[i].serial) == Key(c.serial)
    && rows'[i].name == FiledName(c) && rows'[i].status == Revoked
    && forall j :: 0 <= j < |rows'| && j != i ==> j < |rows| && rows'[j] == rows[j]
  }

  /** What a successful revocation leaves: the row with that serial is revoked and reads
      back as the time, reason and argument given; no other row has changed. */
  lemma RevokeEffect(db: Db, c: Cert, t: RevType, arg: string, now: string, syn: Syntax)
    requires t != RevValid && Revoke(db, c, t, arg, now, syn).0
    requires ',' !in now && syn.utcTime(now)
    ensures var d := Revoke(db, c, t, arg, now, syn).1;
      exists i :: OnlyRevoked(db.rows, d.rows, i, c) && Unpack(d.rows[i].rev, syn) ==
        Some(RevInfo(now, ReasonCode(t, arg),
          if t == RevHold then Some(arg) else None,
          if t == RevKeyCompromise || t == RevCaCompromise then Some(arg) else None))
  {
    hide Fields, Joined, Unpack, ReasonCode;
    RoundTrip(t, arg, now, syn);
    var i := FindSerial(db.rows, c.serial);
    var d := Revoke(db, c, t, arg, now, syn).1;
    var k := if i < 0 then |db.rows| else i;
    assert OnlyRevoked(db.rows, d.rows, k, c);
  }

  /** With unique subjects, no two valid certificates share a name. */
  lemma UniqueSubjects(db: Db, dates: Dates, syn: Syntax, i: nat, j: nat)
    requires Loadable(db, dates, syn) && db.unique && i < j < |db.rows|
    ensures db.rows[i].status == Valid && db.rows[j].status == Valid ==> db.rows[i].name != db.rows[j].name
  {
    assert db.rows[i].status == Valid && db.rows[j].status == Valid ==>
      db.byName[db.rows[i].name] == i && db.byName[db.rows[j].name] == j;
  }

  // ----- the database as the source keeps it -----

  class CaDb {
    var rows: seq<Row>
    var byName: map<string, nat>
    const unique: bool

    constructor (db: Db)
      ensures Value() == db
    {
      rows, byName, unique := db.rows, db.byName, db.unique;
    }

    function Value(): Db
      reads this
    {
      Db(rows, byName, unique)
    }

    /** TXT_DB_get_by_index on the serial index. */
    method Lookup(serial: string) returns (i: int)
      ensures i == FindSerial(rows, serial)
    {
      i := |rows| - 1;
      assert rows[..i + 1] == rows;
      while i >= 0 && Key(rows[i].serial) != Key(serial)
        invariant -1 <= i < |rows|
        invariant FindSerial(rows, serial) == FindSerial(rows[..i + 1], serial)
      {
        assert rows[..i + 1][..i] == rows[..i];
        i := i - 1;
      }
    }

    method InsertRow(c: Cert)
      modifies this
      ensures Value() == Insert(old(Value()), c)
    {
      if unique {
        byName := byName[FiledName(c) := |rows|];
      }
      rows := rows + [Row(Valid, c.exp, "", c.serial, FiledName(c))];
    }

    /** The clash check of do_body and the insertion after it. */
    method DoBody(c: Cert) returns (ok: bool)
      modifies this
      ensures (ok, Value()) == Issue(old(Value()), c)
    {
      var i := Lookup(c.serial);
      if i >= 0 || (unique && FiledName(c) in byName) {
        return false;
      }
      InsertRow(c);
      return true;
    }

    /** do_revoke, with its call of itself after inserting an unknown certificate. */
    method DoRevokeCert(c: Cert, t: RevType, arg: string, now: string, syn: Syntax) returns (ok: bool)
      modifies this
      ensures (ok, Value()) == Revoke(old(Value()), c, t, arg, now, syn)
      decreases FindSerial(rows, c.serial) < 0
    {
      var i := Lookup(c.serial);
      if i < 0 {
        if unique && FiledName(c) in byName {
          return false;
        }
        InsertRow(c);
        if t == RevValid {
          return true;
        }
        ok := DoRevokeCert(c, t, arg, now, syn);
        return;
      }
      if FiledName(c) != rows[i].name || t == RevValid || rows[i].status == Revoked {
        return false;
      }
      var str := MakeRevocationStr(t, arg, now, syn);
      if str.None? {
        return false;
      }
      rows := rows[i := rows[i].(status := Revoked, rev := str.value)];
      return true;
    }

    /** do_updatedb: the number of rows expired, or -1 at the first valid row whose
        date cannot be parsed; the rows before it are updated all the same. */
    method DoUpdateDb(dates: Dates, now: int) returns (cnt: int, ghost k: nat)
      modifies this`rows
      ensures k <= |rows| == |old(rows)| && rows == ExpireUpTo(old(rows), k, dates, now)
      ensures cnt == if k < |rows| then -1 else Due(old(rows), k, dates, now)
      ensures forall i :: 0 <= i < |rows| ==>
        rows[i] == if i < k && IsDue(old(rows)[i], dates, now) then old(rows)[i].(status := Expired) else old(rows)[i]
      ensures cnt >= 0 ==> cnt == |Changed(old(rows), rows)|
      ensures cnt == -1 <==>
        exists i :: 0 <= i < |rows| && old(rows)[i].status == Valid && dates(old(rows)[i].exp).None?
      ensures k < |rows| ==> old(rows)[k].status == Valid && dates(old(rows)[k].exp).None?
      ensures forall i :: 0 <= i < k && old(rows)[i].status == Valid ==> dates(old(rows)[i].exp).Some?
    {
      cnt := 0;
      k := 0;
      var i := 0;
      assert rows == ExpireUpTo(rows, 0, dates, now);
      while i < |rows|
        invariant i == k <= |rows| == |old(rows)| && cnt == Due(old(rows), k, dates, now)
        invariant rows == ExpireUpTo(old(rows), k, dates, now)
        invariant forall j :: 0 <= j < k && old(rows)[j].status == Valid ==> dates(old(rows)[j].exp).Some?
      {
        assert rows[i] == old(rows)[i];
        if rows[i].status == Valid {
          var exp := dates(rows[i].exp);
          if exp.None? {
            return -1, k;
          }
          if exp.value <= now {
            rows := rows[i := rows[i].(status := Expired)];
            cnt := cnt + 1;
          }
        }
        i, k := i + 1, k + 1;
        assert rows == ExpireUpTo(old(rows), k, dates, now);
      }
      DueCounts(old(rows), k, dates, now);
    }
  }

  /** The operations of a session are calls of these methods. */
  method Perform(d: CaDb, op: Op, dates: Dates, syn: Syntax)
    requires Loadable(d.Value(), dates, syn)
    modifies d
    ensures d.Value() == Apply(old(d.Value()), op, dates, syn)
  {
    match op {
      case DoIssue(c) =>
        var ok := d.DoBody(c);
      case DoRevoke(c, t, arg, now) =>
        var ok := d.DoRevokeCert(c, t, arg, now, syn);
      case DoExpire(time) =>
        var cnt, k := d.DoUpdateDb(dates, time);
    }
  }
}
