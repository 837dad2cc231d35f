/** `filter_plants` of plants/services.py: the match-count filter over plants.
    A plant is any value with identity equality (a `RichPlant` object); its
    attributes are read through `attrOf`, which stands for
    `getattr(plant.attrs, name)`. */
module PlantFilters {
  import opened Seqs
  import Dict

  /** Attribute name to the list of accepted values, as posted. */
  type FilterData<V> = Dict.Dict<string, seq<V>>

  /** The pass grade of `p`: over every filtered attribute, the number of listed
      values equal to the plant's value of that attribute. */
  function Grade<P, V(==)>(p: P, filter: FilterData<V>, attrOf: (P, string) -> V): nat {
    if filter == [] then 0
    else Count(filter[0].1, attrOf(p, filter[0].0)) + Grade(p, filter[1..], attrOf)
  }

  /** The `plant_pass_grade` dict: every plant once, in first-occurrence order,
      with its grade. A repeated plant has its grade reset and recomputed. */
  function GradeTable<P(==,!new), V(==)>(plants: seq<P>, filter: FilterData<V>, attrOf: (P, string) -> V)
    : Dict.Dict<P, nat>
  {
    if plants == [] then []
    else
      var last := plants[|plants| - 1];
      Dict.Set(GradeTable(plants[..|plants| - 1], filter, attrOf), last, Grade(last, filter, attrOf))
  }

  /** The plants of `table` whose grade is `n`, in table order. */
  function Passing<P>(table: Dict.Dict<P, nat>, n: nat): seq<P> {
    if table == [] then []
    else (if table[0].1 == n then [table[0].0] else []) + Passing(table[1..], n)
  }

  /** `filter_plants(rich_plants, filter_data)`. */
  function FilterPlants<P(==,!new), V(==)>(plants: seq<P>, filter: FilterData<V>, attrOf: (P, string) -> V)
    : seq<P>
  {
    Passing(GradeTable(plants, filter, attrOf), |filter|)
  }

  // ---------------------------------------------------------------------------
  // Reference definition and properties

  /** Reference: the plants of `s` whose grade equals the number of filtered attributes. */
  function KeepPassing<P, V(==)>(s: seq<P>, filter: FilterData<V>, attrOf: (P, string) -> V): (r: seq<P>)
    ensures |r| <= |s|
    ensures forall i :: 0 <= i < |r| ==> r[i] in s && Grade(r[i], filter, attrOf) == |filter|
  {
    if s == [] then []
    else
      (if Grade(s[0], filter, attrOf) == |filter| then [s[0]] else []) + KeepPassing(s[1..], filter, attrOf)
  }

  /** The grade table holds each distinct plant once, in first-occurrence order, with its grade. */
  lemma {:induction false} GradeTableShape<P(!new), V>(plants: seq<P>, filter: FilterData<V>,
                                                               attrOf: (P, string) -> V)
    ensures var t := GradeTable(plants, filter, attrOf);
      && Dict.WellFormed(t)
      && Dict.Keys(t) == Dedup(plants)
      && forall i :: 0 <= i < |t| ==> t[i].1 == Grade(t[i].0, filter, attrOf)
  {
    if plants != [] {
      var init := plants[..|plants| - 1];
      var last := plants[|plants| - 1];
      var t0 := GradeTable(init, filter, attrOf);
      var t := GradeTable(plants, filter, attrOf);
      GradeTableShape(init, filter, attrOf);
      assert t == Dict.Set(t0, last, Grade(last, filter, attrOf));
      assert Dict.HasKey(t0, last) <==> last in Dedup(init);
      forall i | 0 <= i < |t| ensures t[i].1 == Grade(t[i].0, filter, attrOf) {
        Dict.GetAt(t, i);
        var k := t[i].0;
        if k != last {
          assert Dict.HasKey(t0, k);
          var j := Dict.IndexOf(t0, k);
          Dict.GetAt(t0, j);
        }
      }
    }
  }

  lemma {:induction false} PassingKeeps<P(!new), V>(t: Dict.Dict<P, nat>, filter: FilterData<V>,
                                                           attrOf: (P, string) -> V)
    requires forall i :: 0 <= i < |t| ==> t[i].1 == Grade(t[i].0, filter, attrOf)
    ensures Passing(t, |filter|) == KeepPassing(Dict.Keys(t), filter, attrOf)
  {
    if t != [] {
      PassingKeeps(t[1..], filter, attrOf);
      assert Dict.Keys(t)[1..] == Dict.Keys(t[1..]);
    }
  }

  /** `filter_plants` keeps, in first-occurrence order and without repeats, the
      plants whose grade equals the number of filtered attributes. */
  lemma FilterPlantsSpec<P(!new), V>(plants: seq<P>, filter: FilterData<V>, attrOf: (P, string) -> V)
    ensures FilterPlants(plants, filter, attrOf) == KeepPassing(Dedup(plants), filter, attrOf)
  {
    GradeTableShape(plants, filter, attrOf);
    PassingKeeps(GradeTable(plants, filter, attrOf), filter, attrOf);
  }

  lemma {:induction false} KeepPassingAll<P, V>(s: seq<P>, filter: FilterData<V>, attrOf: (P, string) -> V)
    requires filter == []
    ensures KeepPassing(s, filter, attrOf) == s
  {
    if s != [] {
      KeepPassingAll(s[1..], filter, attrOf);
    }
  }

  lemma {:induction false} KeepPassingMember<P, V>(s: seq<P>, filter: FilterData<V>, attrOf: (P, string) -> V, p: P)
    ensures p in KeepPassing(s, filter, attrOf) <==> p in s && Grade(p, filter, attrOf) == |filter|
  {
    if s != [] {
      KeepPassingMember(s[1..], filter, attrOf, p);
    }
  }

  lemma {:induction false} KeepPassingDistinct<P, V>(s: seq<P>, filter: FilterData<V>, attrOf: (P, string) -> V)
    requires Distinct(s)
    ensures Distinct(KeepPassing(s, filter, attrOf))
  {
    if s != [] {
      assert Distinct(s[1..]) by {
        forall i, j | 0 <= i < j < |s| - 1 ensures s[1..][i] != s[1..][j] {
          assert s[1..][i] == s[i + 1] && s[1..][j] == s[j + 1];
        }
      }
      KeepPassingDistinct(s[1..], filter, attrOf);
      assert s[0] !in s[1..] by {
        forall i | 0 <= i < |s| - 1 ensures s[1..][i] != s[0] {
          assert s[1..][i] == s[i + 1];
        }
      }
    }
  }

  /** With an empty filter every distinct plant passes (grade 0 equals length 0). */
  lemma FilterPlantsEmptyFilter<P(!new), V>(plants: seq<P>, attrOf: (P, string) -> V)
    ensures FilterPlants(plants, [], attrOf) == Dedup(plants)
  {
    FilterPlantsSpec(plants, [], attrOf);
    KeepPassingAll(Dedup(plants), [], attrOf);
  }

  /** The result never repeats a plant, and holds exactly the input plants whose grade
      equals the number of filtered attributes. */
  lemma FilterPlantsMembers<P(!new), V>(plants: seq<P>, filter: FilterData<V>,
                                               attrOf: (P, string) -> V, p: P)
    ensures Distinct(FilterPlants(plants, filter, attrOf))
    ensures p in FilterPlants(plants, filter, attrOf) <==> p in plants && Grade(p, filter, attrOf) == |filter|
  {
    FilterPlantsSpec(plants, filter, attrOf);
    KeepPassingDistinct(Dedup(plants), filter, attrOf);
    KeepPassingMember(Dedup(plants), filter, attrOf, p);
    assert p in Dedup(plants) <==> p in plants by {
      if p in plants {
        var i :| 0 <= i < |plants| && plants[i] == p;
      }
    }
  }

  /** Every value list of the filter is free of repeats. */
  predicate DistinctValues<V(==)>(filter: FilterData<V>) {
    forall k :: 0 <= k < |filter| ==> Distinct(filter[k].1)
  }

  /** When no value is listed twice for an attribute, the grade reaches the number
      of filtered attributes exactly when every filtered attribute of the plant is
      one of its listed values. */
  lemma {:induction false} GradeFull<P, V>(p: P, filter: FilterData<V>, attrOf: (P, string) -> V)
    requires DistinctValues(filter)
    ensures Grade(p, filter, attrOf) <= |filter|
    ensures Grade(p, filter, attrOf) == |filter|
        <==> forall k :: 0 <= k < |filter| ==> attrOf(p, filter[k].0) in filter[k].1
  {
    if filter != [] {
      CountDistinct(filter[0].1, attrOf(p, filter[0].0));
      GradeFull(p, filter[1..], attrOf);
      if forall k :: 0 <= k < |filter| ==> attrOf(p, filter[k].0) in filter[k].1 {
        assert forall k :: 0 <= k < |filter| - 1 ==>
                 attrOf(p, filter[1..][k].0) in filter[1..][k].1 by {
          forall k | 0 <= k < |filter| - 1 ensures attrOf(p, filter[1..][k].0) in filter[1..][k].1 {
            assert filter[1..][k] == filter[k + 1];
          }
        }
      } else if Grade(p, filter, attrOf) == |filter| {
        var k :| 0 <= k < |filter| && attrOf(p, filter[k].0) !in filter[k].1;
        if k == 0 {
        } else {
          assert filter[1..][k - 1] == filter[k];
        }
      }
    }
  }

  /** A plant passes a filter without repeated values exactly when each filtered
      attribute is one of the values listed for it. */
  lemma FilterPlantsMatchAll<P(!new), V>(plants: seq<P>, filter: FilterData<V>,
                                                attrOf: (P, string) -> V, p: P)
    requires DistinctValues(filter)
    ensures p in FilterPlants(plants, filter, attrOf)
        <==> p in plants && forall k :: 0 <= k < |filter| ==> attrOf(p, filter[k].0) in filter[k].1
  {
    FilterPlantsMembers(plants, filter, attrOf, p);
    GradeFull(p, filter, attrOf);
  }

  /** A value listed twice counts twice: it can make up for another attribute
      that does not match. Here plant 7 has species `"y"`, not `"x"`, and passes. */
  lemma RepeatedValueCountsTwice()
    ensures var attrOf := (p: int, name: string) => if name == "genus" then "L" else "y";
      var filter := [("genus", ["L", "L"]), ("species", ["x"])];
      && attrOf(7, "species") !in filter[1].1
      && FilterPlants([7], filter, attrOf) == [7]
  {
    var attrOf := (p: int, name: string) => if name == "genus" then "L" else "y";
    var filter := [("genus", ["L", "L"]), ("species", ["x"])];
    assert Count(filter[0].1, "L") == 2;
    assert Count(filter[1].1, "y") == 0;
    assert Grade(7, filter, attrOf) == 2;
    FilterPlantsMembers([7], filter, attrOf, 7);
    assert |Dedup([7])| <= 1;
    FilterPlantsSpec([7], filter, attrOf);
  }
}
