/** `generateInverseRelations` of metadata-cache.service.ts: it gives every relation that names an
    inverse a counterpart on its target table, pushing into lists that it is iterating, and reaches
    a closed set of relations that a second run leaves alone. */
module InverseRelations {

  datatype RelationType = OneToMany | ManyToOne | OneToOne | ManyToMany | Unknown(name: string)

  /** A missing string property is the empty string. */
  datatype Relation = Relation(
    propertyName: string,
    kind: RelationType,
    targetTable: string,
    targetTableName: string,
    sourceTableName: string,
    inversePropertyName: string,
    isNullable: bool,
    isSystem: bool,
    isGenerated: bool,
    isInverse: bool,
    onDelete: string,
    foreignKeyColumn: string,
    mappedBy: string,
    junctionTableName: string,
    junctionSourceColumn: string,
    junctionTargetColumn: string)

  /** `queryBuilder.isMongoDb` and `getForeignKeyColumnName`. */
  datatype Naming = Naming(isMongoDb: bool, getForeignKeyColumnName: string -> string)

  function TargetName(r: Relation): string {
    if r.targetTableName != "" then r.targetTableName else r.targetTable
  }

  function InverseType(kind: RelationType): RelationType {
    match kind
    case OneToMany => ManyToOne
    case OneToOne => OneToOne
    case ManyToMany => ManyToMany
    case _ => OneToMany
  }

  function ForeignKeyOf(property: string, naming: Naming): string {
    if naming.isMongoDb then property else naming.getForeignKeyColumnName(property)
  }

  /** The relation generated for `r` of `table`. */
  function Inverse(r: Relation, table: string, naming: Naming): Relation {
    var kind := InverseType(r.kind);
    Relation(
      r.inversePropertyName, kind, table, table, TargetName(r), r.propertyName,
      true, r.isSystem, true, true, r.onDelete,
      if kind == ManyToOne then
        (if r.foreignKeyColumn != "" then r.foreignKeyColumn else ForeignKeyOf(r.inversePropertyName, naming))
      else if kind == OneToMany then ForeignKeyOf(r.propertyName, naming)
      else "",
      if kind == OneToOne || kind == ManyToMany then r.propertyName else "",
      if kind == ManyToMany then r.junctionTableName else "",
      if kind == ManyToMany then r.junctionTargetColumn else "",
      if kind == ManyToMany then r.junctionSourceColumn else "")
  }

  predicate Has(relations: seq<Relation>, property: string) {
    exists i :: 0 <= i < |relations| && relations[i].propertyName == property
  }

  /** The relations of each table, by table name. */
  type Schema = map<string, seq<Relation>>

  predicate Misses(s: Schema, r: Relation) {
    r.inversePropertyName != "" && TargetName(r) in s && !Has(s[TargetName(r)], r.inversePropertyName)
  }

  /** The loop body for one relation. */
  function Visited(s: Schema, table: string, r: Relation, naming: Naming): Schema {
    if Misses(s, r) then s[TargetName(r) := s[TargetName(r)] + [Inverse(r, table, naming)]] else s
  }

  /** The first `k` of these relations of `table` visited, and nothing else. */
  function VisitedAll(s: Schema, table: string, relations: seq<Relation>, k: nat, naming: Naming): Schema
    requires k <= |relations|
  {
    if k == 0 then s else Visited(VisitedAll(s, table, relations, k - 1, naming), table, relations[k - 1], naming)
  }

  /** The specification: only the relations that were there before are visited, table by table. */
  function Generated(s: Schema, names: seq<string>, k: nat, naming: Naming): Schema
    requires k <= |names| && forall i :: 0 <= i < |names| ==> names[i] in s
  {
    if k == 0 then s
    else VisitedAll(Generated(s, names, k - 1, naming), names[k - 1], s[names[k - 1]], |s[names[k - 1]]|, naming)
  }

  // ---------------------------------------------------------------- what every visit keeps

  /** `g` on table `t` is the inverse of an original relation that had none. */
  ghost predicate Stems(s: Schema, t: string, g: Relation, naming: Naming) {
    exists name, i :: name in s && 0 <= i < |s[name]| && Begets(s, name, i, t, g, naming)
  }

  ghost predicate Begets(s: Schema, name: string, i: int, t: string, g: Relation, naming: Naming)
    requires name in s && 0 <= i < |s[name]|
  {
    var r := s[name][i];
    g == Inverse(r, name, naming) && TargetName(r) == t && Misses(s, r)
  }

  /** The originals are an unchanged prefix of every list, and all that follows stems from them. */
  ghost predicate Extends(s: Schema, now: Schema, naming: Naming) {
    now.Keys == s.Keys &&
    forall t :: t in s ==> s[t] <= now[t] && forall k :: |s[t]| <= k < |now[t]| ==> Stems(s, t, now[t][k], naming)
  }

  predicate UniqueNames(relations: seq<Relation>) {
    forall i, j :: 0 <= i < j < |relations| ==> relations[i].propertyName != relations[j].propertyName
  }

  ghost predicate AllUnique(s: Schema) { forall t :: t in s ==> UniqueNames(s[t]) }

  /** Visiting an original keeps both. */
  lemma VisitExtends(s: Schema, now: Schema, table: string, i: nat, naming: Naming)
    requires Extends(s, now, naming) && table in s && i < |s[table]|
    ensures Extends(s, Visited(now, table, s[table][i], naming), naming)
  {
    var r := s[table][i];
    var t := TargetName(r);
    if Misses(now, r) {
      if Answered(s, r) {
        GrowthKeepsAnswers(s, now, r);
      }
      assert Begets(s, table, i, t, Inverse(r, table, naming), naming);
    }
  }

  /** A generated relation begets nothing: the relation it stems from is its inverse. */
  lemma GeneratedVisitIsIdle(s: Schema, now: Schema, table: string, g: Relation, t: string, naming: Naming)
    requires Extends(s, now, naming) && Stems(s, t, g, naming)
    ensures Visited(now, table, g, naming) == now
  {
    var name, i :| name in s && 0 <= i < |s[name]| && Begets(s, name, i, t, g, naming);
    var r := s[name][i];
    assert now[name][i] == r;
    if TargetName(g) in now && g.inversePropertyName != "" {
      assert TargetName(g) == name;
      assert now[name][i].propertyName == g.inversePropertyName;
    }
  }

  lemma {:induction false} VisitsExtend(s: Schema, now: Schema, table: string, k: nat, naming: Naming)
    requires Extends(s, now, naming) && table in s && k <= |s[table]|
    ensures Extends(s, VisitedAll(now, table, s[table], k, naming), naming)
  {
    if k > 0 {
      VisitsExtend(s, now, table, k - 1, naming);
      VisitExtends(s, VisitedAll(now, table, s[table], k - 1, naming), table, k - 1, naming);
    }
  }

  /** Originals are unchanged and first in their lists, and every added relation is the inverse of an
      original that had none. */
  lemma {:induction false} GenerationExtends(s: Schema, names: seq<string>, k: nat, naming: Naming)
    requires k <= |names| && forall i :: 0 <= i < |names| ==> names[i] in s
    ensures Extends(s, Generated(s, names, k, naming), naming)
  {
    if k > 0 {
      GenerationExtends(s, names, k - 1, naming);
      VisitsExtend(s, Generated(s, names, k - 1, naming), names[k - 1], |s[names[k - 1]]|, naming);
    }
  }

  lemma {:induction false} VisitsKeepUnique(s: Schema, table: string, relations: seq<Relation>, k: nat, naming: Naming)
    requires AllUnique(s) && k <= |relations|
    ensures AllUnique(VisitedAll(s, table, relations, k, naming))
  {
    if k > 0 { VisitsKeepUnique(s, table, relations, k - 1, naming); }
  }

  /** Property names stay unique within each table. */
  lemma {:induction false} GenerationKeepsUnique(s: Schema, names: seq<string>, k: nat, naming: Naming)
    requires AllUnique(s) && k <= |names| && forall i :: 0 <= i < |names| ==> names[i] in s
    ensures AllUnique(Generated(s, names, k, naming))
  {
    if k > 0 {
      GenerationKeepsUnique(s, names, k - 1, naming);
      VisitsKeepUnique(Generated(s, names, k - 1, naming), names[k - 1], s[names[k - 1]], |s[names[k - 1]]|, naming);
    }
  }

  // ---------------------------------------------------------------- closure

  /** The inverse that `r` names exists, if its table is known. */
  predicate Answered(s: Schema, r: Relation) { !Misses(s, r) }

  /** Lists only grow. */
  ghost predicate Grows(s: Schema, now: Schema) {
    now.Keys == s.Keys && forall t :: t in s ==> s[t] <= now[t]
  }

  lemma GrowthKeepsAnswers(s: Schema, now: Schema, r: Relation)
    requires Grows(s, now) && Answered(s, r)
    ensures Answered(now, r)
  {
    if TargetName(r) in s && Has(s[TargetName(r)], r.inversePropertyName) {
      var t := TargetName(r);
      var k :| 0 <= k < |s[t]| && s[t][k].propertyName == r.inversePropertyName;
      assert s[t] <= now[t] && now[t][k] == s[t][k];
    }
  }

  lemma VisitAnswers(s: Schema, table: string, r: Relation, naming: Naming)
    ensures Grows(s, Visited(s, table, r, naming)) && Answered(Visited(s, table, r, naming), r)
  {
    if Misses(s, r) {
      var t := TargetName(r);
      var added: seq<Relation> := Visited(s, table, r, naming)[t];
      assert added[|added| - 1].propertyName == r.inversePropertyName;
    }
  }

  lemma {:induction false} VisitsAnswer(s: Schema, table: string, relations: seq<Relation>, k: nat, naming: Naming)
    requires k <= |relations|
    ensures var now := VisitedAll(s, table, relations, k, naming);
            Grows(s, now) && forall i :: 0 <= i < k ==> Answered(now, relations[i])
  {
    if k > 0 {
      VisitsAnswer(s, table, relations, k - 1, naming);
      var before := VisitedAll(s, table, relations, k - 1, naming);
      var now := Visited(before, table, relations[k - 1], naming);
      VisitAnswers(before, table, relations[k - 1], naming);
      forall i | 0 <= i < k ensures Answered(now, relations[i]) {
        if i < k - 1 { GrowthKeepsAnswers(before, now, relations[i]); }
      }
    }
  }

  lemma {:induction false} GenerationAnswersOriginals(s: Schema, names: seq<string>, k: nat, naming: Naming)
    requires k <= |names| && forall i :: 0 <= i < |names| ==> names[i] in s
    ensures forall j, i :: 0 <= j < k && 0 <= i < |s[names[j]]| ==>
            Answered(Generated(s, names, k, naming), s[names[j]][i])
  {
    if k > 0 {
      GenerationAnswersOriginals(s, names, k - 1, naming);
      var before, name := Generated(s, names, k - 1, naming), names[k - 1];
      var now := Generated(s, names, k, naming);
      VisitsAnswer(before, name, s[name], |s[name]|, naming);
      forall j, i | 0 <= j < k && 0 <= i < |s[names[j]]| ensures Answered(now, s[names[j]][i]) {
        if j < k - 1 { GrowthKeepsAnswers(before, now, s[names[j]][i]); }
      }
    }
  }

  ghost predicate Covers(names: seq<string>, s: Schema) {
    forall t :: t in s <==> exists i :: 0 <= i < |names| && names[i] == t
  }

  ghost predicate Closed(s: Schema) {
    forall t, i :: t in s && 0 <= i < |s[t]| ==> Answered(s, s[t][i])
  }

  /** After the run every relation, original or generated, that names an inverse on a known table has one
      of that name there. */
  lemma GenerationCloses(s: Schema, names: seq<string>, naming: Naming)
    requires Covers(names, s)
    ensures (forall i :: 0 <= i < |names| ==> names[i] in s) && Closed(Generated(s, names, |names|, naming))
  {
    var now := Generated(s, names, |names|, naming);
    GenerationExtends(s, names, |names|, naming);
    GenerationAnswersOriginals(s, names, |names|, naming);
    forall t, i | t in now && 0 <= i < |now[t]| ensures Answered(now, now[t][i]) {
      if i < |s[t]| {
        var j :| 0 <= j < |names| && names[j] == t;
        assert now[t][i] == s[names[j]][i];
      } else {
        GeneratedVisitIsIdle(s, now, t, now[t][i], t, naming);
        if Misses(now, now[t][i]) {
          VisitAnswers(now, t, now[t][i], naming);
        }
      }
    }
  }

  lemma {:induction false} ClosedVisitsAreIdle(s: Schema, table: string, k: nat, naming: Naming)
    requires Closed(s) && table in s && k <= |s[table]|
    ensures VisitedAll(s, table, s[table], k, naming) == s
  {
    if k > 0 { ClosedVisitsAreIdle(s, table, k - 1, naming); }
  }

  lemma {:induction false} ClosedGenerationIsIdle(s: Schema, names: seq<string>, k: nat, naming: Naming)
    requires Closed(s) && k <= |names| && forall i :: 0 <= i < |names| ==> names[i] in s
    ensures Generated(s, names, k, naming) == s
  {
    if k > 0 {
      ClosedGenerationIsIdle(s, names, k - 1, naming);
      ClosedVisitsAreIdle(s, names[k - 1], |s[names[k - 1]]|, naming);
    }
  }

  /** A second run adds nothing. */
  lemma SecondRunAddsNothing(s: Schema, names: seq<string>, naming: Naming)
    requires Covers(names, s)
    ensures (forall i :: 0 <= i < |names| ==> names[i] in s) &&
            var now := Generated(s, names, |names|, naming);
            now.Keys == s.Keys && Generated(now, names, |names|, naming) == now
  {
    GenerationCloses(s, names, naming);
    GenerationExtends(s, names, |names|, naming);
    ClosedGenerationIsIdle(Generated(s, names, |names|, naming), names, |names|, naming);
  }

  // ---------------------------------------------------------------- the two ends of a relation

  /** Inverting twice leads back: same property and table, same known type, same junction table with its
      columns in their first order. */
  lemma InverseOfInverse(r: Relation, table: string, naming: Naming)
    requires table != "" && TargetName(r) != ""
    ensures var g := Inverse(r, table, naming);
            var back := Inverse(g, TargetName(r), naming);
            TargetName(g) == table && TargetName(back) == TargetName(r) &&
            back.propertyName == r.propertyName && back.inversePropertyName == r.inversePropertyName &&
            (!r.kind.Unknown? ==> back.kind == r.kind) &&
            (r.kind == ManyToMany ==>
               g.junctionTableName == r.junctionTableName &&
               g.junctionSourceColumn == r.junctionTargetColumn && g.junctionTargetColumn == r.junctionSourceColumn &&
               back.junctionTableName == r.junctionTableName &&
               back.junctionSourceColumn == r.junctionSourceColumn &&
                 back.junctionTargetColumn == r.junctionTargetColumn)
  {
  }

  /** Which foreign key the generated end names. For a one-to-many relation it is that of the relation
      whenever it has one; for a many-to-one relation it is derived from the property alone, so the two
      ends agree exactly when the relation's own column is the derived one. */
  lemma ForeignKeysAgree(r: Relation, table: string, naming: Naming)
    ensures r.kind == OneToMany && r.foreignKeyColumn != "" ==>
              Inverse(r, table, naming).foreignKeyColumn == r.foreignKeyColumn
    ensures r.kind == ManyToOne ==>
              (Inverse(r, table, naming).foreignKeyColumn == r.foreignKeyColumn
               <==> r.foreignKeyColumn == ForeignKeyOf(r.propertyName, naming))
  {
  }

  /** The types of the two ends. */
  predicate EndTypes(kind: RelationType, inverse: RelationType) {
    match kind
    case OneToMany => inverse == ManyToOne
    case ManyToOne => inverse == OneToMany
    case OneToOne => inverse == OneToOne
    case ManyToMany => inverse == ManyToMany
    case Unknown(_) => inverse == OneToMany
  }

  /** `g` on table `t` is the other end of `r` of table `name`. */
  predicate OtherEnd(r: Relation, name: string, g: Relation, t: string, naming: Naming) {
    g.propertyName == r.inversePropertyName != "" && g.inversePropertyName == r.propertyName &&
    (r.targetTableName == t || (r.targetTableName == "" && r.targetTable == t)) &&
    g.targetTable == name && g.targetTableName == name && g.sourceTableName == t &&
    EndTypes(r.kind, g.kind) &&
    g.isNullable && g.isGenerated && g.isInverse && g.isSystem == r.isSystem && g.onDelete == r.onDelete &&
    (g.kind == ManyToOne && r.foreignKeyColumn != "" ==> g.foreignKeyColumn == r.foreignKeyColumn) &&
    (g.kind == ManyToOne && r.foreignKeyColumn == "" && naming.isMongoDb ==> g.foreignKeyColumn == g.propertyName) &&
    (g.kind == ManyToOne && r.foreignKeyColumn == "" && !naming.isMongoDb ==>
       g.foreignKeyColumn == naming.getForeignKeyColumnName(g.propertyName)) &&
    (g.kind == OneToMany ==>
       g.foreignKeyColumn == if naming.isMongoDb then r.propertyName
                             else naming.getForeignKeyColumnName(r.propertyName)) &&
    (g.kind == OneToOne ==> g.mappedBy == r.propertyName) &&
    (g.kind == ManyToMany ==>
       g.mappedBy == r.propertyName && g.junctionTableName == r.junctionTableName &&
       g.junctionSourceColumn == r.junctionTargetColumn && g.junctionTargetColumn == r.junctionSourceColumn)
  }

  /** Some relation of the table is called that. */
  ghost predicate HasProperty(s: Schema, t: string, property: string) {
    t in s && exists k :: 0 <= k < |s[t]| && s[t][k].propertyName == property
  }

  /** And nothing is missing: every relation, original or added, that names an inverse finds it on the table it
      targets, by the target's name or else by its other column, if there is such a table. */
  lemma EveryInverseExists(s: Schema, names: seq<string>, naming: Naming, t: string, i: nat, u: string)
    requires Covers(names, s)
    ensures forall j :: 0 <= j < |names| ==> names[j] in s
    ensures var now := Generated(s, names, |names|, naming);
            t in now && i < |now[t]| && now[t][i].inversePropertyName != "" && u in now &&
            u == (if now[t][i].targetTableName == "" then now[t][i].targetTable else now[t][i].targetTableName) ==>
              HasProperty(now, u, now[t][i].inversePropertyName)
  {
    GenerationCloses(s, names, naming);
    var now := Generated(s, names, |names|, naming);
    if t in now && i < |now[t]| {
      assert Answered(now, now[t][i]);
    }
  }

  /** What a run adds to a list is, item by item, the other end of an original relation that targets this table and
      names a property the table did not have. */
  lemma AddedAreOtherEnds(s: Schema, names: seq<string>, t: string, k: nat, naming: Naming)
    requires forall i :: 0 <= i < |names| ==> names[i] in s
    requires t in s && |s[t]| <= k
    ensures t in Generated(s, names, |names|, naming)
    ensures k < |Generated(s, names, |names|, naming)[t]| ==>
              var g := Generated(s, names, |names|, naming)[t][k];
              (forall j :: 0 <= j < |s[t]| ==> s[t][j].propertyName != g.propertyName) &&
              exists name, i :: name in s && 0 <= i < |s[name]| && OtherEnd(s[name][i], name, g, t, naming)
  {
    var now := Generated(s, names, |names|, naming);
    GenerationExtends(s, names, |names|, naming);
    if k < |now[t]| {
      var g := now[t][k];
      assert Stems(s, t, g, naming);
      var name, i :| name in s && 0 <= i < |s[name]| && Begets(s, name, i, t, g, naming);
      assert OtherEnd(s[name][i], name, g, t, naming);
    }
  }

  // ---------------------------------------------------------------- the loops

  class Table {
    const name: string
    var relations: seq<Relation>

    constructor (name: string, relations: seq<Relation>)
      ensures this.name == name && this.relations == relations
    {
      this.name, this.relations := name, relations;
    }
  }

  /** `tablesList` and `tablesMap` as the loader fills them: one entry per table, under its name. */
  ghost predicate Registered(tablesList: seq<Table>, tablesMap: map<string, Table>) {
    (forall i :: 0 <= i < |tablesList| ==>
     tablesList[i].name in tablesMap && tablesMap[tablesList[i].name] == tablesList[i]) &&
    (forall n :: n in tablesMap ==> tablesMap[n].name == n && tablesMap[n] in tablesList)
  }

  ghost function Snapshot(tablesMap: map<string, Table>): Schema
    reads tablesMap.Values
  {
    map n | n in tablesMap :: tablesMap[n].relations
  }

  ghost function Names(tablesList: seq<Table>): (names: seq<string>)
    ensures |names| == |tablesList| && forall i :: 0 <= i < |names| ==> names[i] == tablesList[i].name
  {
    seq(|tablesList|, i requires 0 <= i < |tablesList| => tablesList[i].name)
  }

  /** `targetTable.relations?.some(...)`. */
  method SomeNamed(relations: seq<Relation>, property: string) returns (found: bool)
    ensures found <==> Has(relations, property)
  {
    for i := 0 to |relations|
      invariant forall k :: 0 <= k < i ==> relations[k].propertyName != property
    {
      if relations[i].propertyName == property {
        return true;
      }
    }
    return false;
  }

  /** The loop body. */
  method Visit(table: Table, relation: Relation, tablesMap: map<string, Table>, naming: Naming)
    requires forall n :: n in tablesMap ==> tablesMap[n].name == n
    modifies tablesMap.Values
    ensures Snapshot(tablesMap) == Visited(old(Snapshot(tablesMap)), table.name, relation, naming)
  {
    if relation.inversePropertyName == "" {
      return;
    }
    var targetTableName := TargetName(relation);
    if targetTableName !in tablesMap {
      return;
    }
    var targetTable := tablesMap[targetTableName];
    var inverseExists := SomeNamed(targetTable.relations, relation.inversePropertyName);
    if inverseExists {
      return;
    }
    targetTable.relations := targetTable.relations + [Inverse(relation, table.name, naming)];
  }

  /** The inner loop walks a list that may grow under it: it visits first the originals, then generated
      relations, and only the originals can add to any list. */
  method VisitTable(table: Table, tablesMap: map<string, Table>, naming: Naming, ghost s: Schema)
    requires table in tablesMap.Values && forall n :: n in tablesMap ==> tablesMap[n].name == n
    requires Extends(s, Snapshot(tablesMap), naming)
    modifies tablesMap.Values
    ensures table.name in s
    ensures Snapshot(tablesMap) == VisitedAll(old(Snapshot(tablesMap)), table.name, s[table.name], |s[table.name]|,
                                              naming)
  {
    assert table.name in Snapshot(tablesMap);
    ghost var before, originals := Snapshot(tablesMap), s[table.name];
    var j := 0;
    while j < |table.relations|
      invariant 0 <= j <= |table.relations|
      invariant Extends(s, Snapshot(tablesMap), naming)
      invariant table.relations == Snapshot(tablesMap)[table.name]
      invariant Snapshot(tablesMap)
             == VisitedAll(before, table.name, originals, if j < |originals| then j else |originals|, naming)
      decreases if j < |originals| then |originals| - j else 0, |table.relations| - j
    {
      ghost var now := Snapshot(tablesMap);
      var relation := table.relations[j];
      if j < |originals| {
        assert relation == originals[j];
        VisitExtends(s, now, table.name, j, naming);
      } else {
        assert Stems(s, table.name, now[table.name][j], naming);
        GeneratedVisitIsIdle(s, now, table.name, relation, table.name, naming);
      }
      Visit(table, relation, tablesMap, naming);
      assert Snapshot(tablesMap)[table.name] == table.relations;
      j := j + 1;
    }
    assert |originals| <= |table.relations|;
  }

  method GenerateInverseRelations(tablesList: seq<Table>, tablesMap: map<string, Table>, naming: Naming)
    requires Registered(tablesList, tablesMap)
    modifies tablesMap.Values
    ensures forall i :: 0 <= i < |tablesList| ==> Names(tablesList)[i] in old(Snapshot(tablesMap))
    ensures Snapshot(tablesMap) == Generated(old(Snapshot(tablesMap)), Names(tablesList), |tablesList|, naming)
    ensures Closed(Snapshot(tablesMap))
  {
    ghost var s, names := Snapshot(tablesMap), Names(tablesList);
    var i := 0;
    while i < |tablesList|
      invariant 0 <= i <= |tablesList|
      invariant Snapshot(tablesMap) == Generated(s, names, i, naming)
    {
      GenerationExtends(s, names, i, naming);
      VisitTable(tablesList[i], tablesMap, naming, s);
      i := i + 1;
    }
    assert Covers(names, s) by {
      forall t | t in s ensures exists k :: 0 <= k < |names| && names[k] == t {
        var k :| 0 <= k < |tablesList| && tablesList[k] == tablesMap[t];
        assert names[k] == t;
      }
    }
    GenerationCloses(s, names, naming);
  }
}
