// The pure rules of the contact form: which names and emails the form
// accepts, how the search lowercases and matches names, and how a contact is
// shown as a row of the table.

module FormRules {
  import opened ContactStore

  // ---------------------------------------------------------------------------
  // Names: the pattern ^[A-Za-záéíóúÁÉÍÓÚñÑ\s]+$ applied with re.match

  /** `\s` of a str pattern: the characters for which Python's str.isspace holds. */
  predicate IsSpace(c: char) {
    ('\t' <= c <= '\r') || ('\U{1C}' <= c <= ' ') || c == '\U{85}' || c == '\U{A0}'
    || c == '\U{1680}' || ('\U{2000}' <= c <= '\U{200A}') || c == '\U{2028}' || c == '\U{2029}'
    || c == '\U{202F}' || c == '\U{205F}' || c == '\U{3000}'
  }

  /** The accented letters the pattern lists: á é í ó ú Á É Í Ó Ú ñ Ñ. */
  predicate IsAccentedLetter(c: char) {
    c == 'á' || c == 'é' || c == 'í' || c == 'ó' || c == 'ú'
    || c == 'Á' || c == 'É' || c == 'Í' || c == 'Ó' || c == 'Ú'
    || c == 'ñ' || c == 'Ñ'
  }

  /** One character of the pattern's character class. */
  predicate IsNameChar(c: char) {
    ('A' <= c <= 'Z') || ('a' <= c <= 'z') || IsAccentedLetter(c) || IsSpace(c)
  }

  /** The name check of the form: non-empty, and every character in the class. */
  predicate ValidName(s: string) {
    |s| > 0 && forall i | 0 <= i < |s| :: IsNameChar(s[i])
  }

  /** Where `$` (without MULTILINE) can match: at the end, or just before a final newline. */
  predicate AtEnd(s: string, p: nat) {
    p == |s| || (p + 1 == |s| && s[p] == '\n')
  }

  /** What re.match of the pattern does: some non-empty prefix of class
      characters, anchored at the start, ends where `$` can match. */
  predicate RegexNameMatch(s: string) {
    exists p | 1 <= p <= |s| :: (forall i | 0 <= i < p :: IsNameChar(s[i])) && AtEnd(s, p)
  }

  /** The regex accepts exactly the valid names: the newline that `$` may leave
      unconsumed is itself a class character. */
  lemma NameRegexIsValidName(s: string)
    ensures RegexNameMatch(s) <==> ValidName(s)
  {
    if ValidName(s) {
      assert (forall i | 0 <= i < |s| :: IsNameChar(s[i])) && AtEnd(s, |s|);
    }
    if RegexNameMatch(s) {
      var p :| 1 <= p <= |s| && (forall i | 0 <= i < p :: IsNameChar(s[i])) && AtEnd(s, p);
      if p < |s| {
        assert IsNameChar(s[p]);
      }
    }
  }

  lemma NameExamples()
    ensures ValidName("María José")
    ensures !ValidName("John123")
    ensures ValidName("   ")
    ensures !ValidName("")
  {
    assert !IsNameChar("John123"[4]);
  }

  // ---------------------------------------------------------------------------
  // Emails and substrings

  /** `needle` occurs in `hay` starting at position `i`. */
  predicate OccursAt(hay: string, needle: string, i: nat) {
    i + |needle| <= |hay| && hay[i..i + |needle|] == needle
  }

  /** Python's `needle in hay` on strings. */
  predicate Contains(hay: string, needle: string) {
    exists i | 0 <= i <= |hay| - |needle| :: OccursAt(hay, needle, i)
  }

  /** A one-character substring is an occurrence of that character. */
  lemma ContainsChar(s: string, c: char)
    ensures Contains(s, [c]) <==> c in s
  {
    if c in s {
      var i :| 0 <= i < |s| && s[i] == c;
      assert OccursAt(s, [c], i);
    }
    if Contains(s, [c]) {
      var i :| 0 <= i <= |s| - 1 && OccursAt(s, [c], i);
      assert s[i] == s[i..i + 1][0] == c;
    }
  }

  /** The email check of the form: `@` and `.` each occur somewhere. */
  predicate ValidEmail(e: string) {
    Contains(e, "@") && Contains(e, ".")
  }

  /** The email check asks for the two characters in any order and nothing more. */
  lemma ValidEmailMeaning(e: string)
    ensures ValidEmail(e) <==> '@' in e && '.' in e
  {
    ContainsChar(e, '@');
    ContainsChar(e, '.');
  }

  lemma EmailExamples()
    ensures ValidEmail("a@b.c")
    ensures !ValidEmail("a@b")
    ensures !ValidEmail("no-at-symbol.com")
    ensures ValidEmail(".@")
  {
    ValidEmailMeaning("a@b.c");
    ValidEmailMeaning("a@b");
    ValidEmailMeaning("no-at-symbol.com");
    ValidEmailMeaning(".@");
  }

  // ---------------------------------------------------------------------------
  // Lowercasing and the search filter

  /** str.lower on ASCII and Latin-1: A-Z and À-Þ (but not ×) move up by 32. */
  function LowerChar(c: char): char {
    if 'A' <= c <= 'Z' || ('À' <= c <= 'Þ' && c != '×') then (c as int + 32) as char
    else c
  }

  function Lower(s: string): (r: string)
    ensures |r| == |s|
    ensures forall i | 0 <= i < |s| :: r[i] == LowerChar(s[i])
  {
    if s == [] then [] else [LowerChar(s[0])] + Lower(s[1..])
  }

  /** Lowercasing twice is lowercasing once, and no upper-case letter survives it. */
  lemma LowerIdempotent(s: string)
    ensures Lower(Lower(s)) == Lower(s)
    ensures forall i | 0 <= i < |s| :: !('A' <= Lower(s)[i] <= 'Z')
  {
  }

  /** The search filter: the rows whose lowercased name contains the (already lowercased) query, in table order. */
  function Matching(rows: seq<Contact>, q: string): seq<Contact> {
    if rows == [] then []
    else if Contains(Lower(rows[0].name), q) then [rows[0]] + Matching(rows[1..], q)
    else Matching(rows[1..], q)
  }

  lemma {:induction false} MatchingMembers(rows: seq<Contact>, q: string, c: Contact)
    ensures c in Matching(rows, q) <==> c in rows && Contains(Lower(c.name), q)
  {
    if rows != [] {
      MatchingMembers(rows[1..], q, c);
      assert rows == [rows[0]] + rows[1..];
    }
  }

  lemma {:induction false} MatchingOrder(rows: seq<Contact>, q: string)
    ensures IsSubsequence(Matching(rows, q), rows)
  {
    if rows != [] {
      MatchingOrder(rows[1..], q);
      var m := Matching(rows, q);
      if Contains(Lower(rows[0].name), q) {
        assert m[0] == rows[0] && m[1..] == Matching(rows[1..], q);
      }
    }
  }

  /** The empty query matches every row, so filtering by it keeps the whole table. */
  lemma {:induction false} MatchingEmptyQuery(rows: seq<Contact>)
    ensures Matching(rows, "") == rows
  {
    if rows != [] {
      assert OccursAt(Lower(rows[0].name), "", 0);
      MatchingEmptyQuery(rows[1..]);
      assert rows == [rows[0]] + rows[1..];
    }
  }

  /** The search shows nothing exactly when no row's name contains the query. */
  lemma MatchingNone(rows: seq<Contact>, q: string)
    ensures Matching(rows, q) == [] <==> forall i | 0 <= i < |rows| :: !Contains(Lower(rows[i].name), q)
  {
    var m := Matching(rows, q);
    if m != [] {
      MatchingMembers(rows, q, m[0]);
    }
    forall i | 0 <= i < |rows| && Contains(Lower(rows[i].name), q) ensures m != [] {
      MatchingMembers(rows, q, rows[i]);
    }
  }

  /** Searching "mar" among María, Mark and Elena finds María and Mark, in that order. */
  lemma SearchExample(a: int, b: int, c: int)
    ensures
      var maria := Contact(a, "María", "30", "m@x.com", "1", "1");
      var mark := Contact(b, "Mark", "40", "k@x.com", "2", "2");
      var elena := Contact(c, "Elena", "50", "e@x.com", "3", "3");
      Matching([maria, mark, elena], Lower("mar")) == [maria, mark]
  {
    var maria := Contact(a, "María", "30", "m@x.com", "1", "1");
    var mark := Contact(b, "Mark", "40", "k@x.com", "2", "2");
    var elena := Contact(c, "Elena", "50", "e@x.com", "3", "3");
    var q := Lower("mar");
    assert q == "mar" by {
      assert q[0] == 'm' && q[1] == 'a' && q[2] == 'r';
    }
    var l1, l2, l3 := Lower(maria.name), Lower(mark.name), Lower(elena.name);
    assert OccursAt(l1, q, 0) by {
      assert l1[0] == 'm' && l1[1] == 'a' && l1[2] == 'r';
      assert l1[0..3] == "mar";
    }
    assert OccursAt(l2, q, 0) by {
      assert l2[0] == 'm' && l2[1] == 'a' && l2[2] == 'r';
      assert l2[0..3] == "mar";
    }
    assert !Contains(l3, q) by {
      assert l3[0] == 'e' && l3[1] == 'l' && l3[2] == 'e' && l3[3] == 'n' && l3[4] == 'a';
      forall i | 0 <= i <= 2 ensures !OccursAt(l3, q, i) {
        assert l3[i..i + 3][0] == l3[i] && l3[i..i + 3][1] == l3[i + 1];
      }
    }
    var rows := [maria, mark, elena];
    assert rows[1..] == [mark, elena] && [mark, elena][1..] == [elena] && [elena][1..] == [];
    assert Matching([elena], q) == [];
    assert Matching([mark, elena], q) == [mark];
  }

  // ---------------------------------------------------------------------------
  // The table

  /** A row of the table: the cells name, age, ci, email, phone, and the row's
      selected flag. */
  datatype TableRow = TableRow(name: string, age: string, ci: string, email: string, phone: string, selected: bool)

  /** The row built for a contact: cells taken from the tuple positions 1, 2, 5, 3 and 4, unselected. */
  function RowOf(c: Contact): TableRow {
    TableRow(c.name, c.age, c.ci, c.email, c.phone, false)
  }

  /** The rows built, one per contact and in order, by the table-filling loops. */
  function Rendered(cs: seq<Contact>): seq<TableRow> {
    if cs == [] then [] else Rendered(cs[..|cs| - 1]) + [RowOf(cs[|cs| - 1])]
  }

  /** The table shows each contact's five values in its columns, in table order. */
  lemma {:induction false} RenderedAt(cs: seq<Contact>)
    ensures |Rendered(cs)| == |cs|
    ensures forall i | 0 <= i < |cs| ::
              var r := Rendered(cs)[i];
              !r.selected && r.name == cs[i].name && r.age == cs[i].age && r.ci == cs[i].ci
              && r.email == cs[i].email && r.phone == cs[i].phone
  {
    if cs != [] {
      RenderedAt(cs[..|cs| - 1]);
    }
  }
}
