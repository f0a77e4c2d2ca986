/**
 * The variable registry: the closed table of variable types and the
 * construction of the flat name -> definition table from the vendor's
 * nested identifier catalog (module id -> variable id -> [type, name, domain]).
 *
 * The catalog is given as the sequence of its entries in the order in which
 * the nested loops visit them. The domain of a variable is a type parameter:
 * it is stored with the definition and never inspected.
 */
module Registry {
  import opened Results

  /** The values of the type table `AmtSetupBinVariableTypes`. */
  datatype VariableType = String | Int8 | Int16 | Int32 | GUID

  /** Looks a type code up in the type table; `None` when the code is not one of its keys. */
  function TypeOf(code: int): (t: Option<VariableType>)
    ensures t.Some? <==> 0 <= code <= 4
  {
    match code
    case 0 => Some(String)
    case 1 => Some(Int8)
    case 2 => Some(Int16)
    case 3 => Some(Int32)
    case 4 => Some(GUID)
    case _ => None
  }

  /** The key under which a type stands in the type table. */
  function TypeCode(t: VariableType): (code: nat)
    ensures code <= 4
  {
    match t
    case String => 0
    case Int8 => 1
    case Int16 => 2
    case Int32 => 3
    case GUID => 4
  }

  /** The type table is a bijection between the codes 0 to 4 and the five types. */
  lemma TypeTableBijective(code: int, t: VariableType)
    ensures TypeOf(TypeCode(t)) == Some(t)
    ensures TypeOf(code) == Some(t) <==> code == TypeCode(t)
  {
  }

  /** One leaf of the catalog: `[typeCode, name, domain]` under its two keys. */
  datatype CatalogEntry<D> = CatalogEntry(moduleId: nat, variableId: nat, typeCode: int, name: string, domain: D)

  /** What the registry records for a name. */
  datatype VariableDefinition<D> = VariableDefinition(moduleId: nat, id: nat, variableType: VariableType, domain: D)

  type VariableTable<D> = map<string, VariableDefinition<D>>

  /** The definition an accepted catalog entry contributes. */
  function DefinitionOf<D>(e: CatalogEntry<D>): VariableDefinition<D>
    requires TypeOf(e.typeCode).Some?
  {
    VariableDefinition(e.moduleId, e.variableId, TypeOf(e.typeCode).value, e.domain)
  }

  /** Entry `i` repeats the name of an earlier entry. */
  ghost predicate NameSeenBefore<D>(catalog: seq<CatalogEntry<D>>, i: nat)
    requires i < |catalog|
  {
    exists j :: 0 <= j < i && catalog[j].name == catalog[i].name
  }

  /** Entry `i` is refused, either for its name or for its type code. */
  ghost predicate Refused<D>(catalog: seq<CatalogEntry<D>>, i: nat)
    requires i < |catalog|
  {
    NameSeenBefore(catalog, i) || TypeOf(catalog[i].typeCode).None?
  }

  /** The error an entry is refused with: the name is checked before the type. */
  ghost function RefusalOf<D>(catalog: seq<CatalogEntry<D>>, i: nat): Error
    requires i < |catalog| && Refused(catalog, i)
  {
    if NameSeenBefore(catalog, i) then DuplicateVariable(catalog[i].name)
    else UnknownVariableType(catalog[i].name, catalog[i].typeCode)
  }

  /** Entry `i` is the first refused entry. */
  ghost predicate FirstRefused<D>(catalog: seq<CatalogEntry<D>>, i: nat)
  {
    i < |catalog| && Refused(catalog, i) && forall j :: 0 <= j < i ==> !Refused(catalog, j)
  }

  ghost function Names<D>(catalog: seq<CatalogEntry<D>>): set<string>
  {
    set i | 0 <= i < |catalog| :: catalog[i].name
  }

  /** `table` is the registry of `catalog`: exactly its names, each with its own entry's definition. */
  ghost predicate Registers<D>(table: VariableTable<D>, catalog: seq<CatalogEntry<D>>)
  {
    && table.Keys == Names(catalog)
    && forall i :: 0 <= i < |catalog| ==>
         TypeOf(catalog[i].typeCode).Some? && table[catalog[i].name] == DefinitionOf(catalog[i])
  }

  /** No two entries share a name. */
  ghost predicate DistinctNames<D>(catalog: seq<CatalogEntry<D>>)
  {
    forall i, j :: 0 <= i < j < |catalog| ==> catalog[i].name != catalog[j].name
  }

  /**
   * `createAmtSetupBinVariables`: inserts the entries one by one into a fresh
   * table, failing at the first entry whose name is already in the table or
   * whose type code is not in the type table.
   */
  method CreateVariables<D>(catalog: seq<CatalogEntry<D>>) returns (r: Result<VariableTable<D>>)
    ensures r.Failure? <==> exists i :: 0 <= i < |catalog| && Refused(catalog, i)
    ensures r.Failure? ==> exists i :: FirstRefused(catalog, i) && r.error == RefusalOf(catalog, i)
    ensures r.Success? ==> Registers(r.value, catalog) && DistinctNames(catalog)
  {
    var variables: VariableTable<D> := map[];
    var i := 0;
    while i < |catalog|
      invariant 0 <= i <= |catalog|
      invariant forall j :: 0 <= j < i ==> !Refused(catalog, j)
      invariant Registers(variables, catalog[..i])
    {
      var entry := catalog[i];
      if entry.name in variables {
        assert entry.name in Names(catalog[..i]);
        var j :| 0 <= j < i && catalog[..i][j].name == entry.name;
        assert catalog[j].name == catalog[i].name;
        assert FirstRefused(catalog, i);
        return Failure(DuplicateVariable(entry.name));
      }
      assert !NameSeenBefore(catalog, i) by {
        forall j | 0 <= j < i ensures catalog[j].name != entry.name {
          assert catalog[..i][j] == catalog[j];
        }
      }
      var t := TypeOf(entry.typeCode);
      if t.None? {
        assert FirstRefused(catalog, i);
        return Failure(UnknownVariableType(entry.name, entry.typeCode));
      }
      variables := variables[entry.name := VariableDefinition(entry.moduleId, entry.variableId, t.value, entry.domain)];
      assert catalog[..i + 1] == catalog[..i] + [entry];
      assert Names(catalog[..i + 1]) == Names(catalog[..i]) + {entry.name};
      i := i + 1;
    }
    assert catalog[..i] == catalog;
    forall j | 0 <= j < |catalog| ensures !NameSeenBefore(catalog, j) {
      assert !Refused(catalog, j);
    }
    DistinctFromAccepted(catalog);
    return Success(variables);
  }

  /** A catalog none of whose entries repeats an earlier entry's name has distinct names. */
  lemma DistinctFromAccepted<D>(catalog: seq<CatalogEntry<D>>)
    requires forall i :: 0 <= i < |catalog| ==> !NameSeenBefore(catalog, i)
    ensures DistinctNames(catalog)
  {
    forall i, j | 0 <= i < j < |catalog| ensures catalog[i].name != catalog[j].name {
      assert !NameSeenBefore(catalog, j);
      assert forall k :: 0 <= k < j ==> catalog[k].name != catalog[j].name;
    }
  }

  /** Every type code of the catalog is a key of the type table. */
  ghost predicate KnownTypes<D>(catalog: seq<CatalogEntry<D>>)
  {
    forall i :: 0 <= i < |catalog| ==> TypeOf(catalog[i].typeCode).Some?
  }

  /** No entry is refused exactly when the names are distinct and every type code is known. */
  lemma AcceptedIff<D>(catalog: seq<CatalogEntry<D>>)
    ensures (forall i :: 0 <= i < |catalog| ==> !Refused(catalog, i))
        <==> DistinctNames(catalog) && KnownTypes(catalog)
  {
    if forall i :: 0 <= i < |catalog| ==> !Refused(catalog, i) {
      forall j | 0 <= j < |catalog| ensures !NameSeenBefore(catalog, j) {
        assert !Refused(catalog, j);
      }
      DistinctFromAccepted(catalog);
      forall i | 0 <= i < |catalog| ensures TypeOf(catalog[i].typeCode).Some? {
        assert !Refused(catalog, i);
      }
    }
    if DistinctNames(catalog) && KnownTypes(catalog) {
      forall i | 0 <= i < |catalog| ensures !Refused(catalog, i) {
        assert forall j :: 0 <= j < i ==> catalog[j].name != catalog[i].name;
      }
    }
  }

  /** The registry of a catalog is unique. */
  lemma RegistryDetermined<D>(t1: VariableTable<D>, t2: VariableTable<D>, catalog: seq<CatalogEntry<D>>)
    requires Registers(t1, catalog) && Registers(t2, catalog)
    ensures t1 == t2
  {
  }

  /** No two entries stand under the same module id and variable id, as in the nested catalog object. */
  ghost predicate UniqueKeys<D>(catalog: seq<CatalogEntry<D>>)
  {
    forall i, j :: 0 <= i < j < |catalog| ==>
      (catalog[i].moduleId, catalog[i].variableId) != (catalog[j].moduleId, catalog[j].variableId)
  }

  /** In the registry of a catalog with unique keys, different names have different id pairs. */
  lemma RegisteredIdsDistinct<D>(t: VariableTable<D>, catalog: seq<CatalogEntry<D>>, n1: string, n2: string)
    requires Registers(t, catalog) && UniqueKeys(catalog)
    requires n1 in t && n2 in t && n1 != n2
    ensures (t[n1].moduleId, t[n1].id) != (t[n2].moduleId, t[n2].id)
  {
    var i :| 0 <= i < |catalog| && catalog[i].name == n1;
    var j :| 0 <= j < |catalog| && catalog[j].name == n2;
    assert t[n1] == DefinitionOf(catalog[i]) && t[n2] == DefinitionOf(catalog[j]);
    if i < j {
      assert (catalog[i].moduleId, catalog[i].variableId) != (catalog[j].moduleId, catalog[j].variableId);
    } else {
      assert (catalog[j].moduleId, catalog[j].variableId) != (catalog[i].moduleId, catalog[i].variableId);
    }
  }

  /** In a catalog whose names are distinct, an entry occurs once. */
  lemma OccursOnce<D>(catalog: seq<CatalogEntry<D>>, a: nat)
    requires DistinctNames(catalog) && a < |catalog|
    ensures multiset(catalog)[catalog[a]] == 1
  {
    var e := catalog[a];
    var before, after := catalog[..a], catalog[a + 1..];
    assert catalog == before + [e] + after;
    assert multiset(catalog) == multiset(before) + multiset{e} + multiset(after);
  }

  /** An entry that stands at two positions occurs at least twice. */
  lemma OccursTwice<D>(catalog: seq<CatalogEntry<D>>, i: nat, j: nat)
    requires i < j < |catalog| && catalog[i] == catalog[j]
    ensures multiset(catalog)[catalog[i]] >= 2
  {
    var e := catalog[i];
    assert catalog == catalog[..j] + catalog[j..];
    assert catalog[..j][i] == e;
    assert catalog[j..][0] == e;
    assert multiset(catalog) == multiset(catalog[..j]) + multiset(catalog[j..]);
  }

  /** An entry of one of two permuted catalogs stands somewhere in the other. */
  lemma InPermutation<D>(c1: seq<CatalogEntry<D>>, c2: seq<CatalogEntry<D>>, i: nat)
    requires multiset(c1) == multiset(c2) && i < |c2|
    ensures exists a :: 0 <= a < |c1| && c1[a] == c2[i]
  {
    assert c2[i] in multiset(c2);
    assert c2[i] in c1;
  }

  lemma DistinctPermuted<D>(c1: seq<CatalogEntry<D>>, c2: seq<CatalogEntry<D>>)
    requires DistinctNames(c1) && multiset(c1) == multiset(c2)
    ensures DistinctNames(c2)
  {
    forall i, j | 0 <= i < j < |c2| ensures c2[i].name != c2[j].name {
      InPermutation(c1, c2, i);
      InPermutation(c1, c2, j);
      var a :| 0 <= a < |c1| && c1[a] == c2[i];
      var b :| 0 <= b < |c1| && c1[b] == c2[j];
      if a == b {
        OccursOnce(c1, a);
        OccursTwice(c2, i, j);
        assert false;
      }
    }
  }

  lemma RegistersPermuted<D>(t: VariableTable<D>, c1: seq<CatalogEntry<D>>, c2: seq<CatalogEntry<D>>)
    requires Registers(t, c1) && multiset(c1) == multiset(c2)
    ensures Registers(t, c2)
  {
    forall i | 0 <= i < |c2|
      ensures c2[i].name in t && TypeOf(c2[i].typeCode).Some? && t[c2[i].name] == DefinitionOf(c2[i])
    {
      InPermutation(c1, c2, i);
      var a :| 0 <= a < |c1| && c1[a] == c2[i];
      assert c1[a].name in Names(c1);
    }
    forall a | 0 <= a < |c1| ensures c1[a].name in Names(c2) {
      InPermutation(c2, c1, a);
    }
    forall i | 0 <= i < |c2| ensures c2[i].name in Names(c1) {
      InPermutation(c1, c2, i);
    }
    assert Names(c1) == Names(c2);
  }

  /**
   * The order of the catalog does not matter to a successful construction:
   * a permutation of an accepted catalog is accepted and has the same registry.
   */
  lemma PermutedCatalogSameRegistry<D>(t: VariableTable<D>, c1: seq<CatalogEntry<D>>, c2: seq<CatalogEntry<D>>)
    requires Registers(t, c1) && DistinctNames(c1)
    requires multiset(c1) == multiset(c2)
    ensures forall i :: 0 <= i < |c2| ==> !Refused(c2, i)
    ensures Registers(t, c2)
  {
    DistinctPermuted(c1, c2);
    RegistersPermuted(t, c1, c2);
    AcceptedIff(c2);
  }
}
