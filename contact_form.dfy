// The form controller of the contact book: the five text fields, the search
// field, the table of displayed rows and the selected row, with one method per
// event handler. A handler that would open an error dialog returns the kind of
// error instead.

module ContactForm {
  import opened ContactStore
  import opened FormRules

  datatype Option<T> = None | Some(value: T)

  /** The errors the form reports in a dialog. */
  datatype ErrorKind = MissingFields | InvalidName | InvalidEmail | DuplicateContact | NoSelection

  /** What a handler did: completed, returned without a dialog and without
      changing anything, or reported an error. */
  datatype Outcome = Ok | Silent | Error(kind: ErrorKind)

  /** The text of the dialog for each error (main.py:217-307). No contract
      uses it: it only records what the dialogs say. */
  function Message(k: ErrorKind): string {
    match k
    case MissingFields => "Falta rellenar campos."
    case InvalidName => "El nombre solo debe contener letras y espacios."
    case InvalidEmail => "El correo no es válido."
    case DuplicateContact => "El contacto ya existe en la base de datos."
    case NoSelection => "No ha seleccionado ningún registro."
  }

  const Blank := Fields("", "", "", "", "")

  /** Some field of the form is empty. */
  predicate HasBlank(f: Fields) {
    f.name == "" || f.age == "" || f.ci == "" || f.email == "" || f.phone == ""
  }

  /** Every row of the table names a stored contact. */
  ghost predicate ShowsStored(shown: seq<TableRow>, rows: seq<Contact>) {
    forall k | 0 <= k < |shown| :: HasName(rows, shown[k].name)
  }

  /** A table built from stored contacts shows stored contacts. */
  lemma RenderedShowsStored(cs: seq<Contact>, rows: seq<Contact>)
    requires forall c | c in cs :: c in rows
    ensures ShowsStored(Rendered(cs), rows)
  {
    RenderedAt(cs);
    forall k | 0 <= k < |Rendered(cs)| ensures HasName(rows, Rendered(cs)[k].name) {
      var c := cs[k];
      assert c in rows;
      var i :| 0 <= i < |rows| && rows[i] == c;
      assert rows[i].name == Rendered(cs)[k].name;
    }
  }

  /** The first row, in table order, whose name is `name`. */
  ghost predicate FirstNamed(rows: seq<Contact>, name: string, j: int) {
    0 <= j < |rows| && rows[j].name == name && forall i | 0 <= i < j :: rows[i].name != name
  }

  class FormUi {
    const data: ContactManager
    var name: string
    var age: string
    var ci: string
    var email: string
    var phone: string
    var search: string
    var selectedRow: Option<Contact>
    var tableRows: seq<TableRow>

    /** The store is consistent and the table shows only stored contacts. */
    ghost predicate Valid()
      reads this, data
    {
      data.Valid() && ShowsStored(tableRows, data.rows)
    }

    /** The contents of the five text fields. */
    function Form(): Fields
      reads this
    {
      Fields(name, age, ci, email, phone)
    }

    /** Builds the form on a store that already holds `stored`, and shows it. */
    constructor (stored: seq<Contact>)
      requires DistinctIds(stored)
      ensures Valid() && fresh(data) && data.rows == stored
      ensures Form() == Blank && search == "" && selectedRow == None
      ensures tableRows == Rendered(stored)
    {
      data := new ContactManager(stored);
      name, age, ci, email, phone, search := "", "", "", "", "", "";
      selectedRow := None;
      tableRows := [];
      new;
      ShowData();
    }

    /** `show_data`: the table shows every stored contact. */
    method ShowData()
      requires data.Valid()
      modifies this`tableRows
      ensures Valid()
      ensures tableRows == Rendered(data.rows)
    {
      tableRows := [];
      var contacts := data.GetContacts();
      for i := 0 to |contacts|
        invariant tableRows == Rendered(contacts[..i])
      {
        assert contacts[..i + 1][..i] == contacts[..i];
        tableRows := tableRows + [RowOf(contacts[i])];
      }
      assert contacts[..|contacts|] == contacts;
      RenderedShowsStored(contacts, data.rows);
    }

    /** `clean_fields`: empties the five text fields. */
    method CleanFields()
      requires Valid()
      modifies this`name, this`age, this`ci, this`email, this`phone
      ensures Valid()
      ensures Form() == Blank
    {
      name, age, ci, email, phone := "", "", "", "", "";
    }

    /** `add_data`: validates the form and, when every check passes, stores it
        as a new contact. The checks run in order and the first failure wins. */
    method AddData() returns (o: Outcome)
      requires Valid()
      modifies this, data
      ensures Valid()
      ensures selectedRow == old(selectedRow) && search == old(search)
      ensures HasBlank(old(Form())) ==> o == Error(MissingFields)
      ensures !HasBlank(old(Form())) && !ValidName(old(name)) ==> o == Error(InvalidName)
      ensures (!HasBlank(old(Form())) && ValidName(old(name)) && !ValidEmail(old(email)))
                ==> o == Error(InvalidEmail)
      ensures (!HasBlank(old(Form())) && ValidName(old(name)) && ValidEmail(old(email)))
                ==> o == if HasName(old(data.rows), old(name)) then Error(DuplicateContact) else Ok
      ensures o != Ok ==>
                data.rows == old(data.rows) && Form() == old(Form()) && tableRows == old(tableRows)
      ensures o == Ok ==>
                |data.rows| == |old(data.rows)| + 1
                && data.rows == old(data.rows) + [data.rows[|old(data.rows)|].WithValues(old(Form()))]
                && !HasId(old(data.rows), data.rows[|old(data.rows)|].id)
                && Form() == Blank && tableRows == Rendered(data.rows)
    {
      var n, a, c, e, p := name, age, ci, email, phone;
      if n == "" || a == "" || c == "" || e == "" || p == "" {
        return Error(MissingFields);
      }
      if !ValidName(n) {
        return Error(InvalidName);
      }
      if !ValidEmail(e) {
        return Error(InvalidEmail);
      }
      var contactExists := false;
      var contacts := data.GetContacts();
      var i := 0;
      while i < |contacts|
        invariant 0 <= i <= |contacts|
        invariant forall j | 0 <= j < i :: contacts[j].name != n
      {
        if contacts[i].name == n {
          contactExists := true;
          break;
        }
        i := i + 1;
      }
      if !contactExists {
        CleanFields();
        data.AddContact(n, a, c, e, p);
        ShowData();
        o := Ok;
      } else {
        o := Error(DuplicateContact);
      }
    }

    /** `get_index`: the user clicked row `k` of the table. Its selected flag
        flips, and the first stored contact with the row's name becomes the
        selection; with no such contact the selection stays as it was. */
    method GetIndex(k: nat)
      requires Valid() && k < |tableRows|
      modifies this`tableRows, this`selectedRow
      ensures Valid()
      ensures tableRows == old(tableRows)[k := old(tableRows)[k].(selected := !old(tableRows)[k].selected)]
      ensures !HasName(data.rows, tableRows[k].name) ==> selectedRow == old(selectedRow)
      ensures HasName(data.rows, tableRows[k].name) ==>
                exists j :: FirstNamed(data.rows, tableRows[k].name, j) && selectedRow == Some(data.rows[j])
      ensures selectedRow.Some? && selectedRow.value in data.rows
    {
      tableRows := tableRows[k := tableRows[k].(selected := !tableRows[k].selected)];
      var clicked := tableRows[k].name;
      var contacts := data.GetContacts();
      ghost var found := -1;
      var i := 0;
      while i < |contacts|
        invariant 0 <= i <= |contacts|
        invariant forall j | 0 <= j < i :: contacts[j].name != clicked
        invariant selectedRow == old(selectedRow)
      {
        if contacts[i].name == clicked {
          selectedRow := Some(contacts[i]);
          found := i;
          break;
        }
        i := i + 1;
      }
      if found >= 0 {
        assert FirstNamed(data.rows, clicked, found);
      }
    }

    /** `edit_field_text`: copies the selected contact into the five text
        fields. With nothing selected it changes nothing. */
    method EditFieldText() returns (o: Outcome)
      requires Valid()
      modifies this`name, this`age, this`ci, this`email, this`phone
      ensures Valid()
      ensures old(selectedRow).None? ==> o == Silent && Form() == old(Form())
      ensures old(selectedRow).Some? ==> o == Ok && Form() == selectedRow.value.Values()
    {
      if selectedRow.None? {
        return Silent;
      }
      var row := selectedRow.value;
      name := row.name;
      age := row.age;
      ci := row.ci;
      email := row.email;
      phone := row.phone;
      o := Ok;
    }

    /** `update_data`: writes the form into the stored contact whose id is the
        selection's. None of the name, email or duplicate checks is applied. */
    method UpdateData() returns (o: Outcome)
      requires Valid()
      modifies this, data
      ensures Valid()
      ensures selectedRow == old(selectedRow) && search == old(search)
      ensures old(selectedRow).None? ==> o == Error(NoSelection)
      ensures old(selectedRow).Some? && HasBlank(old(Form())) ==> o == Silent
      ensures o != Ok ==>
                data.rows == old(data.rows) && Form() == old(Form()) && tableRows == old(tableRows)
      ensures old(selectedRow).Some? && !HasBlank(old(Form())) ==>
                o == Ok
                && data.rows == Updated(old(data.rows), selectedRow.value.id, old(Form()))
                && Form() == Blank && tableRows == Rendered(data.rows)
    {
      if selectedRow.None? {
        return Error(NoSelection);
      }
      var n, a, c, e, p := name, age, ci, email, phone;
      if |n| > 0 && |a| > 0 && |c| > 0 && |e| > 0 && |p| > 0 {
        CleanFields();
        data.UpdateContact(selectedRow.value.id, n, a, c, e, p);
        ShowData();
        o := Ok;
      } else {
        o := Silent;
      }
    }

    /** `delete_data`: deletes every stored contact that has the selection's
        name. The selection itself is left as it was. */
    method DeleteData() returns (o: Outcome)
      requires Valid()
      modifies this`tableRows, data
      ensures Valid()
      ensures old(selectedRow).None? ==>
                o == Error(NoSelection) && data.rows == old(data.rows) && tableRows == old(tableRows)
      ensures old(selectedRow).Some? ==>
                o == Ok && data.rows == WithoutName(old(data.rows), selectedRow.value.name)
                && tableRows == Rendered(data.rows)
    {
      if selectedRow.None? {
        return Error(NoSelection);
      }
      data.DeleteContact(selectedRow.value.name);
      ShowData();
      o := Ok;
    }

    /** `search_data`: shows the stored contacts whose lowercased name contains
        the lowercased search text, in table order; an empty search shows all. */
    method SearchData()
      requires Valid()
      modifies this`tableRows
      ensures Valid()
      ensures search == "" ==> tableRows == Rendered(data.rows)
      ensures tableRows == Rendered(Matching(data.rows, Lower(search)))
    {
      var q := Lower(search);
      var contacts := data.GetContacts();
      var found := Matching(contacts, q);
      tableRows := [];
      if search != "" {
        if |found| > 0 {
          for i := 0 to |found|
            invariant tableRows == Rendered(found[..i])
          {
            assert found[..i + 1][..i] == found[..i];
            tableRows := tableRows + [RowOf(found[i])];
          }
          assert found[..|found|] == found;
        }
        forall c | c in found ensures c in data.rows {
          MatchingMembers(contacts, q, c);
        }
        RenderedShowsStored(found, data.rows);
      } else {
        MatchingEmptyQuery(contacts);
        ShowData();
      }
    }
  }

  // ---------------------------------------------------------------------------
  // Sequences of events

  /** A second delete with the same stale selection leaves the store as the first left it. */
  method DeleteTwice(ui: FormUi) returns (first: Outcome, second: Outcome)
    requires ui.Valid() && ui.selectedRow.Some?
    modifies ui, ui.data
    ensures first == Ok && second == Ok && ui.selectedRow == old(ui.selectedRow)
    ensures ui.data.rows == WithoutName(old(ui.data.rows), ui.selectedRow.value.name)
  {
    first := ui.DeleteData();
    second := ui.DeleteData();
    WithoutNameIdempotent(old(ui.data.rows), ui.selectedRow.value.name);
  }

  /** An update that renames the selected contact leaves the selection holding
      the old name. When no other stored contact has that old name, a delete
      right after the update removes nothing. */
  method RenameThenDelete(ui: FormUi, k: nat) returns (updated: Outcome, deleted: Outcome)
    requires ui.Valid() && ui.selectedRow.Some?
    requires k < |ui.data.rows| && ui.data.rows[k] == ui.selectedRow.value
    requires forall j | 0 <= j < |ui.data.rows| && j != k :: ui.data.rows[j].name != ui.data.rows[k].name
    requires !HasBlank(ui.Form()) && ui.name != ui.selectedRow.value.name
    modifies ui, ui.data
    ensures updated == Ok && deleted == Ok && ui.selectedRow == old(ui.selectedRow)
    ensures ui.data.rows == Updated(old(ui.data.rows), ui.selectedRow.value.id, old(ui.Form()))
    ensures |ui.data.rows| == |old(ui.data.rows)|
  {
    updated := ui.UpdateData();
    deleted := ui.DeleteData();
    DeleteAfterRename(old(ui.data.rows), ui.selectedRow.value.id, old(ui.Form()), k);
    UpdatedKeepsIds(old(ui.data.rows), ui.selectedRow.value.id, old(ui.Form()));
  }
}
