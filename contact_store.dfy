// The contact store: the single table `datos` of the contact book, kept in
// memory. Each operation of the store is one SQL statement (INSERT, SELECT *,
// DELETE ... WHERE NOMBRE = ?, UPDATE ... WHERE ID = ?), modelled here as one
// update of the sequence of rows.

module ContactStore {

  /** The five values of a contact that the user edits, in the order the form lists them. */
  datatype Fields = Fields(name: string, age: string, ci: string, email: string, phone: string)

  /** One row of the table, with its fields in the order `SELECT *` returns them:
      (ID, NOMBRE, EDAD, CORREO, TELEFONO, CI). */
  datatype Contact = Contact(id: int, name: string, age: string, email: string, phone: string, ci: string)
  {
    /** The user-visible values of the row. */
    function Values(): Fields {
      Fields(name, age, ci, email, phone)
    }

    /** The row with its five non-id columns overwritten, as `UPDATE ... SET` does. */
    function WithValues(v: Fields): (c: Contact)
      ensures c.id == id && c.Values() == v
    {
      Contact(id, v.name, v.age, v.email, v.phone, v.ci)
    }
  }

  /** No two rows share an id (the table's key). */
  predicate DistinctIds(rows: seq<Contact>) {
    forall i, j | 0 <= i < j < |rows| :: rows[i].id != rows[j].id
  }

  predicate HasId(rows: seq<Contact>, id: int) {
    exists i | 0 <= i < |rows| :: rows[i].id == id
  }

  predicate HasName(rows: seq<Contact>, name: string) {
    exists i | 0 <= i < |rows| :: rows[i].name == name
  }

  /** `a` is `b` with some elements dropped and the rest in their original order. */
  predicate IsSubsequence<T(==)>(a: seq<T>, b: seq<T>)
    decreases |b|
  {
    if b == [] then a == []
    else (a != [] && a[0] == b[0] && IsSubsequence(a[1..], b[1..])) || IsSubsequence(a, b[1..])
  }

  /** The largest id in the table, or 0 for an empty table. */
  function MaxId(rows: seq<Contact>): (m: int)
    ensures forall i | 0 <= i < |rows| :: rows[i].id <= m
    ensures rows != [] ==> HasId(rows, m)
  {
    if rows == [] then 0
    else
      var rest := MaxId(rows[1..]);
      if rows[1..] == [] || rows[0].id >= rest then rows[0].id else rest
  }

  /** The table after `DELETE FROM datos WHERE NOMBRE = name`. */
  function WithoutName(rows: seq<Contact>, name: string): seq<Contact> {
    if rows == [] then []
    else if rows[0].name == name then WithoutName(rows[1..], name)
    else [rows[0]] + WithoutName(rows[1..], name)
  }

  /** The table after `UPDATE datos SET <v> WHERE ID = id`. */
  function Updated(rows: seq<Contact>, id: int, v: Fields): seq<Contact> {
    if rows == [] then []
    else [if rows[0].id == id then rows[0].WithValues(v) else rows[0]] + Updated(rows[1..], id, v)
  }

  // ---------------------------------------------------------------------------
  // Delete by name

  /** A row survives the delete exactly when it was in the table and has another name. */
  lemma {:induction false} WithoutNameMembers(rows: seq<Contact>, name: string, c: Contact)
    ensures c in WithoutName(rows, name) <==> c in rows && c.name != name
  {
    if rows != [] {
      WithoutNameMembers(rows[1..], name, c);
      assert rows == [rows[0]] + rows[1..];
    }
  }

  /** The surviving rows keep their relative order. */
  lemma {:induction false} WithoutNameOrder(rows: seq<Contact>, name: string)
    ensures IsSubsequence(WithoutName(rows, name), rows)
  {
    if rows != [] {
      WithoutNameOrder(rows[1..], name);
      var w := WithoutName(rows, name);
      if rows[0].name != name {
        assert w[0] == rows[0] && w[1..] == WithoutName(rows[1..], name);
      }
    }
  }

  /** Deleting a name no row carries changes nothing. */
  lemma {:induction false} WithoutNameAbsent(rows: seq<Contact>, name: string)
    requires !HasName(rows, name)
    ensures WithoutName(rows, name) == rows
  {
    if rows != [] {
      assert rows[0].name != name;
      assert !HasName(rows[1..], name) by {
        forall i | 0 <= i < |rows[1..]| ensures rows[1..][i].name != name {
          assert rows[1..][i] == rows[i + 1];
        }
      }
      WithoutNameAbsent(rows[1..], name);
      assert rows == [rows[0]] + rows[1..];
    }
  }

  /** After a delete no row has that name. */
  lemma WithoutNameGone(rows: seq<Contact>, name: string)
    ensures !HasName(WithoutName(rows, name), name)
  {
    var w := WithoutName(rows, name);
    forall i | 0 <= i < |w| ensures w[i].name != name {
      WithoutNameMembers(rows, name, w[i]);
    }
  }

  /** Deleting the same name twice is the same as deleting it once. */
  lemma WithoutNameIdempotent(rows: seq<Contact>, name: string)
    ensures WithoutName(WithoutName(rows, name), name) == WithoutName(rows, name)
  {
    WithoutNameGone(rows, name);
    WithoutNameAbsent(WithoutName(rows, name), name);
  }

  /** Deleting keeps the ids distinct. */
  lemma {:induction false} WithoutNameDistinct(rows: seq<Contact>, name: string)
    requires DistinctIds(rows)
    ensures DistinctIds(WithoutName(rows, name))
  {
    if rows != [] {
      var t := rows[1..];
      assert DistinctIds(t) by {
        forall i, j | 0 <= i < j < |t| ensures t[i].id != t[j].id {
          assert t[i] == rows[i + 1] && t[j] == rows[j + 1];
        }
      }
      WithoutNameDistinct(t, name);
      if rows[0].name != name {
        var w := WithoutName(rows, name);
        var wt := WithoutName(t, name);
        assert w == [rows[0]] + wt;
        forall k | 0 <= k < |wt| ensures wt[k].id != rows[0].id {
          WithoutNameMembers(t, name, wt[k]);
          var i :| 0 <= i < |t| && t[i] == wt[k];
          assert t[i] == rows[i + 1];
        }
        forall i, j | 0 <= i < j < |w| ensures w[i].id != w[j].id {
          if i == 0 {
            assert w[j] == wt[j - 1];
          } else {
            assert w[i] == wt[i - 1] && w[j] == wt[j - 1];
          }
        }
      }
    }
  }

  // ---------------------------------------------------------------------------
  // Update by id

  /** The update rewrites, position by position, exactly the rows that carry the id. */
  lemma {:induction false} UpdatedAt(rows: seq<Contact>, id: int, v: Fields)
    ensures |Updated(rows, id, v)| == |rows|
    ensures forall i | 0 <= i < |rows| ::
              Updated(rows, id, v)[i] == if rows[i].id == id then rows[i].WithValues(v) else rows[i]
  {
    if rows != [] {
      UpdatedAt(rows[1..], id, v);
    }
  }

  /** Updating an id no row carries changes nothing (and is no error). */
  lemma UpdatedAbsent(rows: seq<Contact>, id: int, v: Fields)
    requires !HasId(rows, id)
    ensures Updated(rows, id, v) == rows
  {
    UpdatedAt(rows, id, v);
  }

  /** The ids, in order, are those of the table before the update. */
  lemma UpdatedKeepsIds(rows: seq<Contact>, id: int, v: Fields)
    ensures |Updated(rows, id, v)| == |rows|
    ensures forall i | 0 <= i < |rows| :: Updated(rows, id, v)[i].id == rows[i].id
  {
    UpdatedAt(rows, id, v);
  }

  /** Update then list: the row with the id now holds exactly the new values
      under the same id, and every other row is as it was. */
  lemma UpdateRoundTrip(rows: seq<Contact>, id: int, v: Fields, k: nat)
    requires DistinctIds(rows)
    requires k < |rows| && rows[k].id == id
    ensures |Updated(rows, id, v)| == |rows|
    ensures Updated(rows, id, v)[k].id == id && Updated(rows, id, v)[k].Values() == v
    ensures forall j | 0 <= j < |rows| && j != k :: Updated(rows, id, v)[j] == rows[j]
  {
    UpdatedAt(rows, id, v);
    forall j | 0 <= j < |rows| && j != k ensures rows[j].id != id {
      if j < k { assert rows[j].id != rows[k].id; } else { assert rows[k].id != rows[j].id; }
    }
  }

  // ---------------------------------------------------------------------------
  // How the two interact

  /** When no other row shares a row's old name, a delete addressed by that
      old name after an update has renamed the row removes nothing: the
      rename leaves no row under the old name. */
  lemma DeleteAfterRename(rows: seq<Contact>, id: int, v: Fields, k: nat)
    requires DistinctIds(rows)
    requires k < |rows| && rows[k].id == id
    requires v.name != rows[k].name
    requires forall j | 0 <= j < |rows| && j != k :: rows[j].name != rows[k].name
    ensures WithoutName(Updated(rows, id, v), rows[k].name) == Updated(rows, id, v)
  {
    var u := Updated(rows, id, v);
    UpdateRoundTrip(rows, id, v, k);
    assert !HasName(u, rows[k].name) by {
      forall j | 0 <= j < |u| ensures u[j].name != rows[k].name {
        if j == k { assert u[j].Values() == v; }
      }
    }
    WithoutNameAbsent(u, rows[k].name);
  }

  // ---------------------------------------------------------------------------

  /** The table `datos` and the allocator of its ids. */
  class ContactManager {
    var rows: seq<Contact>
    var nextId: int

    /** Ids are distinct, and the allocator is past every id in use. */
    ghost predicate Valid()
      reads this
    {
      DistinctIds(rows) && forall i | 0 <= i < |rows| :: rows[i].id < nextId
    }

    /** Opens the store on the rows already present in the table. */
    constructor (stored: seq<Contact>)
      requires DistinctIds(stored)
      ensures Valid() && rows == stored
    {
      rows := stored;
      nextId := MaxId(stored) + 1;
    }

    /** `add_contact`: inserts one row with a fresh id. No duplicate check. */
    method AddContact(name: string, age: string, ci: string, email: string, phone: string)
      requires Valid()
      modifies this
      ensures Valid()
      ensures |rows| == |old(rows)| + 1
      ensures rows == old(rows) + [Contact(rows[|old(rows)|].id, name, age, email, phone, ci)]
      ensures !HasId(old(rows), rows[|old(rows)|].id)
    {
      rows := rows + [Contact(nextId, name, age, email, phone, ci)];
      nextId := nextId + 1;
    }

    /** `get_contacts`: every row, in table order. */
    method GetContacts() returns (contacts: seq<Contact>)
      ensures contacts == rows
    {
      contacts := rows;
    }

    /** `delete_contact`: removes every row whose name equals `name` exactly. */
    method DeleteContact(name: string)
      requires Valid()
      modifies this
      ensures Valid() && nextId == old(nextId)
      ensures rows == WithoutName(old(rows), name)
    {
      var w := WithoutName(rows, name);
      WithoutNameDistinct(rows, name);
      forall k | 0 <= k < |w| ensures w[k].id < nextId {
        WithoutNameMembers(rows, name, w[k]);
      }
      rows := w;
    }

    /** `update_contact`: overwrites the five non-id fields of the row with `contactId`. */
    method UpdateContact(contactId: int, name: string, age: string, ci: string, email: string, phone: string)
      requires Valid()
      modifies this
      ensures Valid() && nextId == old(nextId)
      ensures rows == Updated(old(rows), contactId, Fields(name, age, ci, email, phone))
    {
      var u := Updated(rows, contactId, Fields(name, age, ci, email, phone));
      UpdatedKeepsIds(rows, contactId, Fields(name, age, ci, email, phone));
      assert DistinctIds(u) by {
        forall i, j | 0 <= i < j < |u| ensures u[i].id != u[j].id {
          assert u[i].id == rows[i].id && u[j].id == rows[j].id;
        }
      }
      forall i | 0 <= i < |u| ensures u[i].id < nextId {
        assert u[i].id == rows[i].id;
      }
      rows := u;
    }
  }
}
