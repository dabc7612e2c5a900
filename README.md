# Contact book: a verified model

This project models the core of a single-user contact book. The book keeps
its contacts, each with a name, age, national id number (CI), email and
phone, in one SQLite table named `datos`. Users work on it through a form
with five text fields, a search field and a table of rows.

The model has three modules:

- `ContactStore` (`contact_store.dfy`) models `ContactManager`. The table
  becomes a `seq<Contact>` field, and the id that SQLite assigns becomes a
  counter `nextId`. A `Contact` has its fields in the order that
  `SELECT *` returns them: `(ID, NOMBRE, EDAD, CORREO, TELEFONO, CI)`. So
  `x[3]` is the email and `x[5]` the CI, as the form's code indexes them.
  The four statements are four functions of the table: append, identity,
  `WithoutName` (the `DELETE ... WHERE NOMBRE = ?`) and `Updated` (the
  `UPDATE ... WHERE ID = ?`). The lemmas beside them prove what each
  statement promises.
- `FormRules` (`form_rules.dfy`) holds the pure rules of the form:
  - the name pattern `^[A-Za-záéíóúÁÉÍÓÚñÑ\s]+$` as `re.match` applies it;
  - the email check (`@` and `.` anywhere);
  - Python's `in` on strings and `str.lower`;
  - the search filter;
  - the mapping of a contact to a table row, whose cells are name, age,
    CI, email and phone.
- `ContactForm` (`contact_form.dfy`) models the form as class `FormUi`.
  The text fields, the search text, `selected_row` and the table rows are
  its fields. Each event handler is a method. Where the code opens an error
  dialog, the method returns an `Outcome` carrying the error kind instead.
  The class invariant `Valid()` says two things: the store's ids are
  distinct and below the counter, and every row in the table names a stored
  contact. Every handler keeps that invariant.

Some behaviour of the code is easy to miss. The model follows the code
exactly here:

- The selection is never cleared. `add_data`, `update_data`, `delete_data`
  and `clean_fields` leave `selected_row` as it was. After a delete or a
  rename, the stale snapshot stays selected.
- Clicking a row flips only that row's visual `selected` flag. The
  selection itself is not toggled: it is set to the first stored contact
  with the clicked row's name.
- `update_data` with an empty field returns silently. It reports no error.
- The accented letters of the name pattern are `á é í ó ú Á É Í Ó Ú ñ Ñ`.
- Any whitespace passes the name pattern, and a name made only of
  whitespace is accepted.

## Model

| member | source | states |
|---|---|---|
| `ContactStore.Contact.WithValues` | Crud-de-Contactos-2/contact_manager.py:32-33 | overwriting a row keeps its id and gives it exactly the new name, age, CI, email and phone |
| `ContactStore.ContactManager.constructor` | Crud-de-Contactos-2/contact_manager.py:5-7 | opening the store on existing rows with distinct ids yields a valid store holding exactly those rows |
| `ContactStore.ContactManager.AddContact` | Crud-de-Contactos-2/contact_manager.py:9-14 | exactly one row is appended with the given values and an id no current row holds; earlier rows are unchanged; there is no duplicate-name precondition, so an existing name is inserted again |
| `ContactStore.ContactManager.GetContacts` | Crud-de-Contactos-2/contact_manager.py:16-22 | returns every row in table order and changes nothing |
| `ContactStore.ContactManager.DeleteContact` | Crud-de-Contactos-2/contact_manager.py:24-28 | the new table is the old one without the rows whose name equals the argument; ids stay distinct |
| `ContactStore.ContactManager.UpdateContact` | Crud-de-Contactos-2/contact_manager.py:30-35 | the new table is the old one with the five non-id fields of the row carrying the id overwritten; ids stay distinct |
| `ContactStore.WithoutNameMembers` | Crud-de-Contactos-2/contact_manager.py:26-27 | a row survives a delete if and only if it was stored and its name differs, case-sensitively, from the deleted name |
| `ContactStore.WithoutNameOrder` | Crud-de-Contactos-2/contact_manager.py:26-27 | the surviving rows keep their original relative order |
| `ContactStore.WithoutNameAbsent` | Crud-de-Contactos-2/contact_manager.py:26-27 | deleting a name that no row carries leaves the table unchanged |
| `ContactStore.WithoutNameGone` | Crud-de-Contactos-2/contact_manager.py:26-27 | after a delete, no row has the deleted name |
| `ContactStore.WithoutNameIdempotent` | Crud-de-Contactos-2/contact_manager.py:24-28 | deleting a name twice is the same as deleting it once |
| `ContactStore.WithoutNameDistinct` | Crud-de-Contactos-2/contact_manager.py:24-28 | a delete keeps the ids distinct |
| `ContactStore.UpdatedAt` | Crud-de-Contactos-2/contact_manager.py:32-34 | an update keeps the row count; position by position, it rewrites exactly the rows whose id matches and keeps the others |
| `ContactStore.UpdatedAbsent` | Crud-de-Contactos-2/contact_manager.py:32-34 | updating an id that no row carries leaves the table unchanged, and is not an error |
| `ContactStore.UpdatedKeepsIds` | Crud-de-Contactos-2/contact_manager.py:32-34 | an update changes no row's id and does not change the row count |
| `ContactStore.UpdateRoundTrip` | Crud-de-Contactos-2/contact_manager.py:30-35 | after updating an existing id, the listed row with that id holds exactly the new values under the same id; all other rows are unchanged |
| `ContactStore.DeleteAfterRename` | Crud-de-Contactos-2/main.py:287-311 | in a table with distinct ids, if an update renames row k and no other row has row k's old name, then a delete addressed by that old name removes nothing (when another row shares the old name, the delete removes that row instead) |
| `FormRules.NameRegexIsValidName` | Crud-de-Contactos-2/main.py:221 | `re.match` of the pattern, with `$` allowed just before a final newline, accepts a name if and only if the name is non-empty and every character is an ASCII letter, one of the listed accented letters, or Python whitespace |
| `FormRules.NameExamples` | Crud-de-Contactos-2/main.py:221 | "María José" and "   " pass the name check; "John123" and "" fail it |
| `FormRules.ContainsChar` | Crud-de-Contactos-2/main.py:227 | a one-character `in` test holds if and only if that character occurs in the string |
| `FormRules.ValidEmailMeaning` | Crud-de-Contactos-2/main.py:227 | the email check passes if and only if the email contains both `@` and `.`, in any order |
| `FormRules.EmailExamples` | Crud-de-Contactos-2/main.py:227 | "a@b.c" and ".@" pass the email check; "a@b" and "no-at-symbol.com" fail it |
| `FormRules.Lower` | Crud-de-Contactos-2/main.py:315-316 | lowercasing keeps the length and maps each character on its own |
| `FormRules.LowerIdempotent` | Crud-de-Contactos-2/main.py:315-316 | lowercasing twice equals lowercasing once, and no ASCII capital remains |
| `FormRules.MatchingMembers` | Crud-de-Contactos-2/main.py:316 | a row is in the search result if and only if it is stored and its lowercased name contains the lowercased query |
| `FormRules.MatchingOrder` | Crud-de-Contactos-2/main.py:316 | search results keep table order |
| `FormRules.MatchingEmptyQuery` | Crud-de-Contactos-2/main.py:314-335 | filtering by the empty query keeps the whole table, so the full-table fallback agrees with the filter |
| `FormRules.MatchingNone` | Crud-de-Contactos-2/main.py:316-319 | the search result is empty if and only if no stored name contains the query |
| `FormRules.SearchExample` | Crud-de-Contactos-2/main.py:314-316 | searching "mar" among María, Mark and Elena finds exactly María and Mark, in that order |
| `FormRules.RenderedAt` | Crud-de-Contactos-2/main.py:191-204 | the table has one unselected row per contact, in order; its cells show the contact's name, age, CI (tuple position 5), email (position 3) and phone (position 4) |
| `ContactForm.RenderedShowsStored` | Crud-de-Contactos-2/main.py:191-204 | a table built from stored contacts shows only names of stored contacts |
| `ContactForm.FormUi.constructor` | Crud-de-Contactos-2/main.py:21-66 | the form starts with empty fields, no selection and the full table shown |
| `ContactForm.FormUi.ShowData` | Crud-de-Contactos-2/main.py:190-205 | the table shows every stored contact, in table order |
| `ContactForm.FormUi.CleanFields` | Crud-de-Contactos-2/main.py:338-344 | all five text fields become empty; the selection and everything else are untouched |
| `ContactForm.FormUi.AddData` | Crud-de-Contactos-2/main.py:208-243 | checks run in a fixed order: empty field, then name, then email, then duplicate name; the first failure wins, and on failure the store, form and table are unchanged; on success exactly one row with the submitted values and a fresh id is appended, the form is emptied and the table shows the whole store; the selection never changes |
| `ContactForm.FormUi.GetIndex` | Crud-de-Contactos-2/main.py:262-272 | flips the clicked row's selected flag and nothing else in the table; selects the first stored contact named like the clicked row, or keeps the old selection if there is none; because the table shows only stored names, a selection always results |
| `ContactForm.FormUi.EditFieldText` | Crud-de-Contactos-2/main.py:274-284 | with a selection, fills the five fields with its values, taking CI from position 5 and email from position 3; with none, changes nothing |
| `ContactForm.FormUi.UpdateData` | Crud-de-Contactos-2/main.py:287-302 | with no selection, reports a no-selection error and changes nothing; with an empty field, returns silently and changes nothing; otherwise overwrites the row carrying the selection's id with the form's values, with no name, email or duplicate check, then empties the form and shows the whole store; the selection is kept |
| `ContactForm.FormUi.DeleteData` | Crud-de-Contactos-2/main.py:305-311 | with no selection, reports a no-selection error and changes nothing; otherwise deletes every row bearing the selection's name and shows the whole store; the selection is kept |
| `ContactForm.FormUi.SearchData` | Crud-de-Contactos-2/main.py:314-335 | the table shows exactly the stored contacts whose lowercased name contains the lowercased search text, in table order; an empty search shows the whole store |
| `ContactForm.DeleteTwice` | Crud-de-Contactos-2/main.py:305-311 | pressing delete twice on the same stale selection succeeds both times and leaves the store as one delete leaves it |
| `ContactForm.RenameThenDelete` | Crud-de-Contactos-2/main.py:287-311 | when the selection is stored row k, the form has no empty field and renames it, and no other stored contact has the old name: the update succeeds, the selection still holds the old name, and the delete that follows removes nothing |

## Left out

- User interface: the Flet layout, widgets and styling, and the `update()`
  refresh calls are not modelled (main.py:20-187, 371-372). A click event
  is modelled as the index of the clicked table row.
- Error dialogs: each dialog is modelled as the returned error kind, and
  `Message` records its text (main.py:246-260).
- Storage failures: every store statement is assumed to succeed. In the
  code, a failing INSERT, SELECT, DELETE or UPDATE raises an sqlite3 error
  that nothing catches (contact_manager.py:13, 20, 27, 34). One example is
  a `data.db` without table `datos`: then the form's constructor already
  fails at main.py:66. The model has no error path for these failures.
- Concurrency: the connection is opened for use from any thread
  (`check_same_thread=False`, contact_manager.py:7). The model runs each
  handler to completion before the next one starts, so interleaved
  handlers are not modelled.
- Row order: `SELECT * FROM datos` (contact_manager.py:19) has no
  `ORDER BY`, so SQL leaves the order of the rows open. The model takes the
  order of the `rows` sequence: the rows given when the store is opened come
  first, in the order given, and each inserted row is appended last. Two
  behaviours depend on this order. `get_index` selects the first stored row
  with the clicked name (main.py:268-271), which matters once an update has
  created duplicate names. The table also shows the rows in this order
  (main.py:192). An engine that returns rows in some other order, such as
  by id, can select a different row and show the table differently.
- `edit_field_text` prints "Error" to the console when nothing is
  selected. The print is not modelled; the method returns `Silent`.
- PDF and Excel export are file output through third-party libraries with
  clock-based file names (main.py:9-17, 347-369).
- SQLite connection handling is not modelled: connecting, `commit`,
  `close_connection` and the thread setting (contact_manager.py:5-7,
  37-40). The constructor takes the rows already in the table as a
  parameter.
- App startup and its open/close/reopen sequence (main.py:375-384).
- The widget input filters (digits only, `max_length`) are not modelled.
  No handler checks them, so the model accepts any text in every field.
- Column types: all five values are modelled as text. The repository has no
  `CREATE TABLE`, so SQLite's type conversion for `EDAD`, `CI` and
  `TELEFONO` is unknown. `str(...)` of a text value is the value itself.
- ContactStore.ContactManager.AddContact: ids come from a counter, which
  never reuses an id. The contract promises only that the new id is not
  held by any current row. The table's id policy is not part of the
  repository.
- FormRules.Lower: models `str.lower` on ASCII and Latin-1 only (A-Z and
  À-Þ except × map to lower case). Other characters are left unchanged,
  and Python's full Unicode case mapping is not modelled.
- FormRules.IsSpace: the `\s` class is Python's `str.isspace` set. Other
  features of the regular-expression engine are outside this one pattern
  and are not modelled.
