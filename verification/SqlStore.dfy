/** The SQL certificate store: the issued_certs table and the statements run on it. Row ids are not modelled. */
module SqlStore {
  import opened Common
  import opened Records

  type Table = seq<Record>

  /** The UNIQUE constraint on key_id. */
  predicate UniqueKeys(rows: Table) {
    forall i, j :: 0 <= i < j < |rows| ==> rows[i].keyId != rows[j].keyId
  }

  predicate HasKey(rows: Table, id: string) {
    exists i :: 0 <= i < |rows| && rows[i].keyId == id
  }

  /** SELECT * ... WHERE keep. */
  function Select(rows: Table, keep: Record -> bool): (r: Table)
    ensures forall rec :: rec in r <==> rec in rows && keep(rec)
  {
    if rows == [] then []
    else
      assert rows == [rows[0]] + rows[1..];
      (if keep(rows[0]) then [rows[0]] else []) + Select(rows[1..], keep)
  }

  /** No row is selected twice. */
  lemma {:induction false} SelectUnique(rows: Table, keep: Record -> bool)
    requires UniqueKeys(rows)
    ensures UniqueKeys(Select(rows, keep))
  {
    if rows != [] {
      SelectUnique(rows[1..], keep);
      forall rec | rec in Select(rows[1..], keep) ensures rec.keyId != rows[0].keyId {
        assert rec in rows[1..];
      }
    }
  }

  /** SELECT * ... WHERE key_id = id. */
  function WithKey(rows: Table, id: string): (r: Table)
    ensures forall rec :: rec in r <==> rec in rows && rec.keyId == id
  {
    Select(rows, (rec: Record) => rec.keyId == id)
  }

  /** UPDATE ... SET revoked = 1 WHERE key_id IN (ids). */
  function Update(rows: Table, ids: seq<string>): (r: Table) {
    seq(|rows|, i requires 0 <= i < |rows| =>
      if rows[i].keyId in ids then rows[i].(revoked := true) else rows[i])
  }

  class Store {
    var rows: Table

    constructor ()
      ensures rows == []
    {
      rows := [];
    }

    method Get(id: string) returns (r: Option<Record>)
      requires UniqueKeys(rows)
      ensures match r case Some(rec) => rec in rows && rec.keyId == id case None => !HasKey(rows, id)
      ensures r == if WithKey(rows, id) == [] then None else Some(WithKey(rows, id)[0])
    {
      var found := WithKey(rows, id);
      assert forall i :: 0 <= i < |rows| && rows[i].keyId == id ==> rows[i] in found;
      r := if found == [] then None else Some(found[0]);
    }

    /** The insert names no revoked column, so a row starts unrevoked; a repeated key id is refused. */
    method SetRecord(rec: Record) returns (ok: bool)
      requires UniqueKeys(rows)
      modifies this
      ensures UniqueKeys(rows) && ok == !HasKey(old(rows), rec.keyId)
      ensures rows == if ok then old(rows) + [rec.(revoked := false)] else old(rows)
    {
      ok := !exists i :: 0 <= i < |rows| && rows[i].keyId == rec.keyId;
      if ok {
        rows := rows + [rec.(revoked := false)];
      }
    }

    method List(includeExpired: bool, now: Time) returns (r: seq<Record>)
      ensures UniqueKeys(rows) ==> UniqueKeys(r)
      ensures forall rec :: rec in r <==> rec in rows && (includeExpired || now <= rec.expires)
    {
      var keep := if includeExpired then _ => true else (rec: Record) => rec.expires >= now;
      r := Select(rows, keep);
      if UniqueKeys(rows) {
        SelectUnique(rows, keep);
      }
    }

    /** An empty IN list is refused before the database sees it; unknown ids match no row. */
    method Revoke(ids: seq<string>) returns (ok: bool)
      requires UniqueKeys(rows)
      modifies this
      ensures UniqueKeys(rows) && (ok <==> ids != []) && |rows| == |old(rows)|
      ensures forall i :: 0 <= i < |rows| ==>
                rows[i] == old(rows)[i].(revoked := old(rows)[i].revoked || old(rows)[i].keyId in ids)
    {
      if ids == [] {
        return false;
      }
      rows := Update(rows, ids);
      return true;
    }

    method GetRevoked(now: Time) returns (r: seq<Record>)
      ensures UniqueKeys(rows) ==> UniqueKeys(r)
      ensures forall rec :: rec in r <==> rec in rows && rec.revoked && now <= rec.expires
    {
      var keep := (rec: Record) => rec.revoked && now <= rec.expires;
      r := Select(rows, keep);
      if UniqueKeys(rows) {
        SelectUnique(rows, keep);
      }
    }
  }
}
