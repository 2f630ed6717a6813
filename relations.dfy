/**
 * The relation catalog (subsetter/relations.go): foreign keys as the engine's
 * constraint catalog describes them, the parser that recovers their columns from
 * the constraint definition text, and the two per-table filters over the catalog.
 * The catalog is an explicit list here; the process-wide cache that holds it in
 * the source is not modelled.
 */
module Relations {

  import opened Outcomes
  import opened Text

  /**
   * A foreign key. PrimaryTable owns the key (the dependent table) and
   * PrimaryColumn is the key column; ForeignTable is the referenced parent and
   * ForeignColumn the referenced column.
   */
  datatype Relation = Relation(PrimaryTable: string, PrimaryColumn: string, ForeignTable: string, ForeignColumn: string)
  {
    predicate IsSelfRelated() {
      PrimaryTable == ForeignTable
    }

    /** The rows of the owning table whose key column takes one of the given values. */
    function Query(subset: seq<string>): (q: string)
      ensures subset == [] ==> q == "SELECT * FROM " + PrimaryTable + " WHERE " + PrimaryColumn + " IN ()"
    {
      "SELECT * FROM " + PrimaryTable + " WHERE " + PrimaryColumn + " IN (" + QuotedList(subset) + ")"
    }

    /** The referenced column's values, read from the parent table. */
    function PrimaryQuery(): string {
      "SELECT " + ForeignColumn + " FROM " + ForeignTable
    }
  }

  /** A catalog row: owning table, referenced table and the constraint's definition text. */
  datatype RelationRaw = RelationRaw(PrimaryTable: string, ForeignTable: string, SQL: string)
  {
    /**
     * The relation the definition text describes. The owning table is always the
     * catalog's; the other three fields come from the text, and stay empty when
     * the text does not parse.
     */
    function ToRelation(): (rel: Relation)
      ensures rel.PrimaryTable == PrimaryTable
      ensures FindForeignKey(SQL).None? <==> rel.PrimaryColumn == rel.ForeignTable == rel.ForeignColumn == ""
    {
      match FindForeignKey(SQL)
      case None => Relation(PrimaryTable, "", "", "")
      case Some(m) => Relation(PrimaryTable, m.column, m.parent, m.parentColumn)
    }
  }

  // ---------------------------------------------------------------------------
  // The definition-text parser: the regular expression
  //   FOREIGN KEY \((\w+)\) REFERENCES (\w+)\((\w+)\).*
  // searched for anywhere in the text, the leftmost match winning.

  /** `\w`: an ASCII letter, digit or underscore. */
  predicate IsWordChar(c: char) {
    ('a' <= c <= 'z') || ('A' <= c <= 'Z') || ('0' <= c <= '9') || c == '_'
  }

  /** `\w+` matches exactly these strings. */
  predicate IsWord(w: string) {
    |w| > 0 && forall i :: 0 <= i < |w| ==> IsWordChar(w[i])
  }

  /** End of the longest run of word characters that starts at `i`. */
  function WordEnd(s: string, i: nat): (j: nat)
    requires i <= |s|
    ensures i <= j <= |s|
    ensures forall k {:trigger IsWordChar(s[k])} :: i <= k < j ==> IsWordChar(s[k])
    ensures j == |s| || !IsWordChar(s[j])
    decreases |s| - i
  {
    if i < |s| && IsWordChar(s[i]) then WordEnd(s, i + 1) else i
  }

  predicate LiteralAt(s: string, i: nat, lit: string) {
    i + |lit| <= |s| && s[i..i + |lit|] == lit
  }

  /** The three captures of a match. */
  datatype ForeignKeyText = ForeignKeyText(column: string, parent: string, parentColumn: string)

  const KeyOpen := "FOREIGN KEY ("
  const KeyReferences := ") REFERENCES "

  /**
   * The match that starts at `p`, if any. A `\w+` group must stop where the
   * next literal begins, and no literal starts with a word character, so each
   * group is the longest word run at its position: there is nothing to backtrack.
   */
  function MatchAt(s: string, p: nat): Option<ForeignKeyText> {
    if !LiteralAt(s, p, KeyOpen) then None else ColumnFrom(s, p + |KeyOpen|)
  }

  /** `(\w+)\) REFERENCES (\w+)\((\w+)\)` from `a`: the three captures. */
  function ColumnFrom(s: string, a: nat): Option<ForeignKeyText>
    requires a <= |s|
  {
    match WordThen(s, a, KeyReferences)
    case None => None
    case Some(e1) =>
      match ParentFrom(s, e1 + |KeyReferences|)
      case None => None
      case Some(pc) => Some(ForeignKeyText(s[a..e1], pc.0, pc.1))
  }

  /** `(\w+)\((\w+)\)` from `b`: the parent table and its column. */
  function ParentFrom(s: string, b: nat): Option<(string, string)>
    requires b <= |s|
  {
    match WordThen(s, b, "(")
    case None => None
    case Some(e2) =>
      match WordThen(s, e2 + 1, ")")
      case None => None
      case Some(e3) => Some((s[b..e2], s[e2 + 1..e3]))
  }

  /** `(\w+)` at `i` followed by `lit`: the end of the word, when both are there. */
  function WordThen(s: string, i: nat, lit: string): (r: Option<nat>)
    requires i <= |s|
    ensures r.Some? ==> i < r.value && r.value + |lit| <= |s|
  {
    var e := WordEnd(s, i);
    if e == i || !LiteralAt(s, e, lit) then None else Some(e)
  }

  /** The leftmost match that starts at or after `p`. */
  function FindFrom(s: string, p: nat): (r: Option<ForeignKeyText>)
    ensures r.None? ==> forall q :: p <= q <= |s| ==> MatchAt(s, q).None?
    ensures r.Some? ==> exists q :: p <= q <= |s| && MatchAt(s, q) == r &&
                                    forall q' :: p <= q' < q ==> MatchAt(s, q').None?
    decreases |s| + 1 - p
  {
    if p > |s| then None
    else match MatchAt(s, p)
      case Some(m) => Some(m)
      case None => FindFrom(s, p + 1)
  }

  /** `FindStringSubmatch`: the leftmost match in the whole text. */
  function FindForeignKey(s: string): Option<ForeignKeyText> {
    FindFrom(s, 0)
  }

  /** The text the engine prints for a single-column foreign key. */
  function Definition(column: string, parent: string, parentColumn: string): string {
    KeyOpen + column + KeyReferences + parent + "(" + parentColumn + ")"
  }

  lemma {:induction false} WordEndAt(s: string, i: nat, w: string)
    requires i + |w| <= |s| && s[i..i + |w|] == w
    requires forall k :: 0 <= k < |w| ==> IsWordChar(w[k])
    requires i + |w| == |s| || !IsWordChar(s[i + |w|])
    ensures WordEnd(s, i) == i + |w|
    decreases |w|
  {
    if |w| > 0 {
      assert s[i] == w[0];
      assert s[i + 1..i + 1 + |w[1..]|] == w[1..];
      WordEndAt(s, i + 1, w[1..]);
    }
  }

  /** A word at `i` followed by a literal that starts with a non-word character is found by `WordThen`. */
  lemma WordThenAt(s: string, i: nat, w: string, lit: string)
    requires IsWord(w) && LiteralAt(s, i, w)
    requires LiteralAt(s, i + |w|, lit) && lit != [] && !IsWordChar(lit[0])
    ensures WordThen(s, i, lit) == Some(i + |w|)
  {
    assert s[i + |w|] == lit[0];
    WordEndAt(s, i, w);
  }

  /** The parent part laid out from `b`: a word, "(", a word and ")". */
  ghost predicate ParentLaidOut(s: string, b: nat, parent: string, parentColumn: string) {
    LiteralAt(s, b, parent) && LiteralAt(s, b + |parent|, "(") &&
    LiteralAt(s, b + |parent| + 1, parentColumn) && LiteralAt(s, b + |parent| + 1 + |parentColumn|, ")")
  }

  /** The pieces of a match laid out from position `p` of `s`, with the three captures given. */
  ghost predicate LaidOut(s: string, p: nat, column: string, parent: string, parentColumn: string) {
    var a := p + |KeyOpen|;
    LiteralAt(s, p, KeyOpen) && LiteralAt(s, a, column) && LiteralAt(s, a + |column|, KeyReferences) &&
    ParentLaidOut(s, a + |column| + |KeyReferences|, parent, parentColumn)
  }

  /** Where each piece of the printed definition sits. */
  lemma DefinitionLayout(column: string, parent: string, parentColumn: string, suffix: string)
    ensures LaidOut(Definition(column, parent, parentColumn) + suffix, 0, column, parent, parentColumn)
  {
  }

  /** A word, "(", a word and ")" from `b` give the parent and its column. */
  lemma ParentAt(s: string, b: nat, parent: string, parentColumn: string)
    requires IsWord(parent) && IsWord(parentColumn) && ParentLaidOut(s, b, parent, parentColumn)
    ensures ParentFrom(s, b) == Some((parent, parentColumn))
  {
    WordThenAt(s, b, parent, "(");
    WordThenAt(s, b + |parent| + 1, parentColumn, ")");
  }

  /** No literal after a `\w+` group starts with a word character. */
  lemma LiteralsOpenWithNonWord()
    ensures KeyReferences != [] && !IsWordChar(KeyReferences[0])
  {
  }

  /** Text laid out as a match at `p`, with word captures, matches there. */
  lemma LaidOutMatches(s: string, p: nat, column: string, parent: string, parentColumn: string)
    requires LaidOut(s, p, column, parent, parentColumn)
    requires IsWord(column) && IsWord(parent) && IsWord(parentColumn)
    ensures MatchAt(s, p) == Some(ForeignKeyText(column, parent, parentColumn))
  {
    var a := p + |KeyOpen|;
    LiteralsOpenWithNonWord();
    WordThenAt(s, a, column, KeyReferences);
    ParentAt(s, a + |column| + |KeyReferences|, parent, parentColumn);
    assert ColumnFrom(s, a) == Some(ForeignKeyText(column, parent, parentColumn));
  }

  /** What `WordThen` finds is a word at `i`, with the literal right after it. */
  lemma WordThenSound(s: string, i: nat, lit: string, e: nat)
    requires i <= |s| && WordThen(s, i, lit) == Some(e)
    ensures IsWord(s[i..e]) && LiteralAt(s, i, s[i..e]) && LiteralAt(s, e, lit)
  {
  }

  /** What `ParentFrom` finds is two words laid out from `b`, with "(" between them and ")" after them. */
  lemma ParentFromSound(s: string, b: nat, parent: string, parentColumn: string)
    requires b <= |s| && ParentFrom(s, b) == Some((parent, parentColumn))
    ensures IsWord(parent) && IsWord(parentColumn) && ParentLaidOut(s, b, parent, parentColumn)
  {
    var e2 := WordThen(s, b, "(").value;
    WordThenSound(s, b, "(", e2);
    var e3 := WordThen(s, e2 + 1, ")").value;
    WordThenSound(s, e2 + 1, ")", e3);
    assert parent == s[b..e2] && parentColumn == s[e2 + 1..e3];
  }

  /**
   * What `ColumnFrom` finds is a word at `a`, followed by the literal and by the
   * parent part, laid out with the other two captures.
   */
  lemma ColumnFromSound(s: string, a: nat, m: ForeignKeyText)
    requires a <= |s| && ColumnFrom(s, a) == Some(m)
    ensures IsWord(m.column) && IsWord(m.parent) && IsWord(m.parentColumn)
    ensures LiteralAt(s, a, m.column) && LiteralAt(s, a + |m.column|, KeyReferences)
    ensures ParentLaidOut(s, a + |m.column| + |KeyReferences|, m.parent, m.parentColumn)
  {
    var e1 := WordThen(s, a, KeyReferences).value;
    WordThenSound(s, a, KeyReferences, e1);
    ParentFromSound(s, e1 + |KeyReferences|, m.parent, m.parentColumn);
    assert m.column == s[a..e1];
  }

  /** A match at `p` has word captures, laid out there as the pattern demands. */
  lemma MatchAtSound(s: string, p: nat)
    requires MatchAt(s, p).Some?
    ensures var m := MatchAt(s, p).value;
      IsWord(m.column) && IsWord(m.parent) && IsWord(m.parentColumn) &&
      LaidOut(s, p, m.column, m.parent, m.parentColumn)
  {
    var m := MatchAt(s, p).value;
    assert LiteralAt(s, p, KeyOpen) && ColumnFrom(s, p + |KeyOpen|) == Some(m);
    ColumnFromSound(s, p + |KeyOpen|, m);
  }

  /** Some match with word captures is laid out at `p`. */
  ghost predicate MatchLaidOutAt(s: string, p: nat) {
    exists c, t, k :: IsWord(c) && IsWord(t) && IsWord(k) && LaidOut(s, p, c, t, k)
  }

  /** A match is laid out at `q` exactly when the parser matches there. */
  lemma MatchLaidOutAtExactly(s: string, q: nat)
    ensures MatchLaidOutAt(s, q) <==> MatchAt(s, q).Some?
  {
    if MatchLaidOutAt(s, q) {
      var c, t, k :| IsWord(c) && IsWord(t) && IsWord(k) && LaidOut(s, q, c, t, k);
      LaidOutMatches(s, q, c, t, k);
    }
    if MatchAt(s, q).Some? {
      MatchAtSound(s, q);
      var m := MatchAt(s, q).value;
      assert IsWord(m.column) && IsWord(m.parent) && IsWord(m.parentColumn) && LaidOut(s, q, m.column, m.parent, m.parentColumn);
    }
  }

  /**
   * The parser finds a match exactly when the pattern is laid out, with word
   * captures, at some position, and the captures are those of the leftmost one.
   */
  lemma FindForeignKeyLeftmost(s: string, m: ForeignKeyText)
    ensures FindForeignKey(s) == Some(m) <==>
      exists p :: 0 <= p <= |s| &&
        IsWord(m.column) && IsWord(m.parent) && IsWord(m.parentColumn) &&
        LaidOut(s, p, m.column, m.parent, m.parentColumn) &&
        forall q :: 0 <= q < p ==> !MatchLaidOutAt(s, q)
  {
    forall q: nat
      ensures MatchLaidOutAt(s, q) <==> MatchAt(s, q).Some?
    {
      MatchLaidOutAtExactly(s, q);
    }
    if FindForeignKey(s) == Some(m) {
      var p :| 0 <= p <= |s| && MatchAt(s, p) == Some(m) && forall q :: 0 <= q < p ==> MatchAt(s, q).None?;
      MatchAtSound(s, p);
    }
    if p :| 0 <= p <= |s| && IsWord(m.column) && IsWord(m.parent) && IsWord(m.parentColumn) &&
            LaidOut(s, p, m.column, m.parent, m.parentColumn) && forall q :: 0 <= q < p ==> !MatchLaidOutAt(s, q) {
      LaidOutMatches(s, p, m.column, m.parent, m.parentColumn);
    }
  }

  /**
   * Parsing what the engine prints gives back the columns and the parent, and
   * the owner comes from the catalog row, whatever follows the definition.
   */
  lemma ToRelationRoundTrip(owner: string, referenced: string, column: string, parent: string, parentColumn: string, suffix: string)
    requires IsWord(column) && IsWord(parent) && IsWord(parentColumn)
    ensures RelationRaw(owner, referenced, Definition(column, parent, parentColumn) + suffix).ToRelation()
         == Relation(owner, column, parent, parentColumn)
  {
    DefinitionLayout(column, parent, parentColumn, suffix);
    LaidOutMatches(Definition(column, parent, parentColumn) + suffix, 0, column, parent, parentColumn);
  }

  /** A definition with no "FOREIGN KEY (" anywhere yields a relation with only its owner set. */
  lemma NoKeywordNoColumns(raw: RelationRaw)
    requires forall p :: 0 <= p <= |raw.SQL| ==> !LiteralAt(raw.SQL, p, KeyOpen)
    ensures raw.ToRelation() == Relation(raw.PrimaryTable, "", "", "")
  {
    assert forall q :: 0 <= q <= |raw.SQL| ==> MatchAt(raw.SQL, q).None?;
  }

  // ---------------------------------------------------------------------------
  // The two catalog filters.

  /** Which side of a catalog row is compared with the table name. */
  datatype Side = Owner | Referenced

  predicate Selects(raw: RelationRaw, table: string, side: Side) {
    match side
    case Owner => raw.PrimaryTable == table
    case Referenced => raw.ForeignTable == table
  }

  /** The conversions of the rows the side selects, in catalog order. */
  function Catalogued(catalog: seq<RelationRaw>, table: string, side: Side): (r: seq<Relation>)
    decreases |catalog|
  {
    if catalog == [] then []
    else
      var init := Catalogued(catalog[..|catalog| - 1], table, side);
      var last := catalog[|catalog| - 1];
      if Selects(last, table, side) then init + [last.ToRelation()] else init
  }

  /** The filter keeps catalog order: filtering a concatenation concatenates the filtered parts. */
  lemma {:induction false} CataloguedAppend(c1: seq<RelationRaw>, c2: seq<RelationRaw>, table: string, side: Side)
    ensures Catalogued(c1 + c2, table, side) == Catalogued(c1, table, side) + Catalogued(c2, table, side)
    decreases |c2|
  {
    if c2 == [] {
      assert c1 + c2 == c1;
    } else {
      var init := c2[..|c2| - 1];
      assert (c1 + c2)[..|c1 + c2| - 1] == c1 + init;
      CataloguedAppend(c1, init, table, side);
    }
  }

  /** Exactly the conversions of the selected rows, and nothing else, are returned. */
  lemma {:induction false} CataloguedMembers(catalog: seq<RelationRaw>, table: string, side: Side, rel: Relation)
    ensures rel in Catalogued(catalog, table, side) <==>
            exists i :: 0 <= i < |catalog| && Selects(catalog[i], table, side) && rel == catalog[i].ToRelation()
    decreases |catalog|
  {
    if catalog != [] {
      var init, last := catalog[..|catalog| - 1], catalog[|catalog| - 1];
      CataloguedMembers(init, table, side, rel);
      if rel in Catalogued(catalog, table, side) {
        if rel in Catalogued(init, table, side) {
          var i :| 0 <= i < |init| && Selects(init[i], table, side) && rel == init[i].ToRelation();
          assert catalog[i] == init[i];
        } else {
          assert Selects(last, table, side) && rel == last.ToRelation();
          assert Selects(catalog[|init|], table, side) && rel == catalog[|init|].ToRelation();
        }
      } else {
        forall i | 0 <= i < |catalog| && Selects(catalog[i], table, side)
          ensures rel != catalog[i].ToRelation()
        {
          if i < |init| {
            assert catalog[i] == init[i];
          }
        }
      }
    }
  }

  /** Every relation GetRelations returns is owned by the requested table. */
  lemma OwnedRelationsBelongToTable(catalog: seq<RelationRaw>, table: string)
    ensures forall rel :: rel in Catalogued(catalog, table, Owner) ==> rel.PrimaryTable == table
  {
    forall rel | rel in Catalogued(catalog, table, Owner)
      ensures rel.PrimaryTable == table
    {
      CataloguedMembers(catalog, table, Owner, rel);
    }
  }

  /**
   * GetRequiredBy compares the catalog's referenced table, but the parent a
   * returned relation names is read from the text: the two may differ.
   */
  lemma RequiredByParentComesFromText()
    ensures var raw := RelationRaw("orders", "users", Definition("user_id", "accounts", "id"));
            Catalogued([raw], "users", Referenced) == [Relation("orders", "user_id", "accounts", "id")]
  {
    var raw := RelationRaw("orders", "users", Definition("user_id", "accounts", "id"));
    assert IsWord("user_id") && IsWord("accounts") && IsWord("id");
    ToRelationRoundTrip("orders", "users", "user_id", "accounts", "id", "");
    assert Definition("user_id", "accounts", "id") + "" == raw.SQL;
    assert [raw][..0] == [];
  }

  /** `GetRelations`: the relations the table owns, converted, in catalog order. */
  method GetRelations(table: string, catalog: seq<RelationRaw>) returns (relations: seq<Relation>)
    ensures relations == Catalogued(catalog, table, Owner)
  {
    relations := [];
    for i := 0 to |catalog|
      invariant relations == Catalogued(catalog[..i], table, Owner)
    {
      assert catalog[..i + 1][..i] == catalog[..i];
      if table == catalog[i].PrimaryTable {
        relations := relations + [catalog[i].ToRelation()];
      }
    }
    assert catalog[..|catalog|] == catalog;
  }

  /** `GetRequiredBy`: the relations that reference the table, converted, in catalog order. */
  method GetRequiredBy(table: string, catalog: seq<RelationRaw>) returns (relations: seq<Relation>)
    ensures relations == Catalogued(catalog, table, Referenced)
  {
    relations := [];
    for i := 0 to |catalog|
      invariant relations == Catalogued(catalog[..i], table, Referenced)
    {
      assert catalog[..i + 1][..i] == catalog[..i];
      if table == catalog[i].ForeignTable {
        relations := relations + [catalog[i].ToRelation()];
      }
    }
    assert catalog[..|catalog|] == catalog;
  }
}
