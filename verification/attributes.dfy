/** The attribute bookkeeping of plants/services.py behind the filter form:
    parsing the posted check boxes, collecting the values a filter can offer,
    and marking the offered values that were posted. */
module AttributeFilters {
  import opened Wrappers
  import opened Seqs
  import opened Text
  import Dict

  /** The values paired with attribute `a` in `pairs`, in order. */
  function ValuesOf<V>(pairs: seq<(string, V)>, a: string): (vs: seq<V>)
    ensures |vs| <= |pairs|
  {
    if pairs == [] then []
    else ValuesOf(pairs[..|pairs| - 1], a) + (if pairs[|pairs| - 1].0 == a then [pairs[|pairs| - 1].1] else [])
  }

  lemma ValuesOfMember<V>(pairs: seq<(string, V)>, a: string)
    ensures ValuesOf(pairs, a) != [] <==> a in Dict.Keys(pairs)
    decreases |pairs|
  {
    if pairs != [] {
      var init := pairs[..|pairs| - 1];
      ValuesOfMember(init, a);
      assert Dict.Keys(pairs) == Dict.Keys(init) + [pairs[|pairs| - 1].0];
    }
  }

  // ---------------------------------------------------------------------------
  // get_filtered_attr_values_from_post

  /** Raised by `key[2]` for a check-box key with fewer than three `-`-separated parts. */
  datatype PostError = MalformedCheckbox(key: string)

  predicate IsCheckbox(key: string) {
    Contains(key, "checkbox")
  }

  predicate Malformed(key: string) {
    IsCheckbox(key) && |Split(key, '-')| < 3
  }

  /** `get_filtered_attr_values_from_post` over the posted keys, in order: each key
      containing `checkbox` adds its third `-`-separated part to the list of the
      attribute named by its second part. */
  function ParsePost(keys: seq<string>): Result<Dict.Dict<string, seq<string>>, PostError> {
    if keys == [] then Success([])
    else
      var fd :- ParsePost(keys[..|keys| - 1]);
      var key := keys[|keys| - 1];
      if !IsCheckbox(key) then Success(fd)
      else
        var parts := Split(key, '-');
        if |parts| < 3 then Failure(MalformedCheckbox(key))
        else
          Success(AddValue(fd, parts[1], parts[2]))
  }

  /** `filter_data[a].append(v)` if `a` is already a key, else `filter_data[a] = [v]`. */
  function AddValue(fd: Dict.Dict<string, seq<string>>, a: string, v: string): Dict.Dict<string, seq<string>> {
    if Dict.HasKey(fd, a) then Dict.Set(fd, a, Dict.Get(fd, a) + [v]) else Dict.Set(fd, a, [v])
  }

  /** One more posted key. */
  lemma ParsePostLast(keys: seq<string>)
    requires keys != []
    ensures var prev := ParsePost(keys[..|keys| - 1]);
      var key := keys[|keys| - 1];
      var parts := Split(key, '-');
      && (prev.Failure? ==> ParsePost(keys).Failure?)
      && (prev.Success? && !IsCheckbox(key) ==> ParsePost(keys) == prev)
      && (prev.Success? && Malformed(key) ==> ParsePost(keys).Failure?)
      && (prev.Success? && IsCheckbox(key) && !Malformed(key) ==>
            ParsePost(keys) == Success(AddValue(prev.value, parts[1], parts[2])))
  {
  }

  /** Reference: the `(attribute, value)` pair of every well-formed check-box key, in order. */
  function CheckedPairs(keys: seq<string>): seq<(string, string)> {
    if keys == [] then []
    else
      var key := keys[|keys| - 1];
      var parts := Split(key, '-');
      CheckedPairs(keys[..|keys| - 1]) + (if IsCheckbox(key) && |parts| >= 3 then [(parts[1], parts[2])] else [])
  }

  /** The dictionary built from `pairs`: one entry per attribute in order of first
      appearance, holding that attribute's values in order. */
  predicate Grouped(fd: Dict.Dict<string, seq<string>>, pairs: seq<(string, string)>) {
    && Dict.WellFormed(fd)
    && Dict.Keys(fd) == Dedup(Dict.Keys(pairs))
    && forall i :: 0 <= i < |fd| ==> fd[i].1 == ValuesOf(pairs, fd[i].0)
  }

  /** Appending one pair to the grouped dictionary. */
  lemma GroupedSnoc(fd: Dict.Dict<string, seq<string>>, pairs: seq<(string, string)>, a: string, v: string)
    requires Grouped(fd, pairs)
    ensures Grouped(AddValue(fd, a, v), pairs + [(a, v)])
  {
    GroupedSnocKeys(fd, pairs, a, v);
    GroupedSnocValues(fd, pairs, a, v);
  }

  lemma GroupedSnocKeys(fd: Dict.Dict<string, seq<string>>, pairs: seq<(string, string)>, a: string, v: string)
    requires Grouped(fd, pairs)
    ensures Dict.WellFormed(AddValue(fd, a, v))
    ensures Dict.Keys(AddValue(fd, a, v)) == Dedup(Dict.Keys(pairs + [(a, v)]))
  {
    Dict.KeysSnoc(pairs, (a, v));
    DedupSnoc(Dict.Keys(pairs), a);
  }

  lemma GroupedSnocValues(fd: Dict.Dict<string, seq<string>>, pairs: seq<(string, string)>, a: string, v: string)
    requires Grouped(fd, pairs)
    ensures var fd' := AddValue(fd, a, v);
      forall i :: 0 <= i < |fd'| ==> fd'[i].1 == ValuesOf(pairs + [(a, v)], fd'[i].0)
  {
    var fd' := AddValue(fd, a, v);
    assert Dict.WellFormed(fd');
    assert Dict.HasKey(fd, a) <==> a in Dict.Keys(pairs) by {
      if a in Dict.Keys(pairs) {
        var i :| 0 <= i < |Dict.Keys(pairs)| && Dict.Keys(pairs)[i] == a;
      }
    }
    forall i | 0 <= i < |fd'| ensures fd'[i].1 == ValuesOf(pairs + [(a, v)], fd'[i].0) {
      Dict.GetAt(fd', i);
      var k := fd'[i].0;
      ValuesOfSnoc(pairs, (a, v), k);
      if k != a {
        Dict.GetAt(fd, Dict.IndexOf(fd, k));
      } else if Dict.HasKey(fd, a) {
        Dict.GetAt(fd, Dict.IndexOf(fd, a));
      } else {
        ValuesOfMember(pairs, a);
      }
    }
  }

  predicate NoneMalformed(keys: seq<string>) {
    forall i :: 0 <= i < |keys| ==> !Malformed(keys[i])
  }

  lemma NoneMalformedSnoc(keys: seq<string>)
    requires keys != []
    ensures NoneMalformed(keys) <==> NoneMalformed(keys[..|keys| - 1]) && !Malformed(keys[|keys| - 1])
  {
    assert forall i :: 0 <= i < |keys| - 1 ==> keys[..|keys| - 1][i] == keys[i];
  }

  /** Parsing fails exactly on the first malformed check-box key; otherwise the
      result groups the posted values by attribute, attributes in order of first
      appearance and values in posted order. */
  lemma {:induction false} ParsePostSpec(keys: seq<string>)
    ensures ParsePost(keys).Success? <==> NoneMalformed(keys)
    ensures ParsePost(keys).Success? ==> Grouped(ParsePost(keys).value, CheckedPairs(keys))
  {
    if keys != [] {
      var init := keys[..|keys| - 1];
      var key := keys[|keys| - 1];
      ParsePostSpec(init);
      ParsePostLast(keys);
      NoneMalformedSnoc(keys);
      var prev := ParsePost(init);
      if prev.Success? && !Malformed(key) {
        var parts := Split(key, '-');
        if IsCheckbox(key) {
          GroupedSnoc(prev.value, CheckedPairs(init), parts[1], parts[2]);
          assert CheckedPairs(keys) == CheckedPairs(init) + [(parts[1], parts[2])];
        } else {
          assert CheckedPairs(keys) == CheckedPairs(init) + [];
          assert CheckedPairs(init) + [] == CheckedPairs(init);
        }
      }
    }
  }

  /** Only the first three parts of a key are read: a value containing `-` is cut at it. */
  lemma ValueCutAtDash()
    ensures ParsePost(["checkbox-cultivar-Red-Top"]) == Success([("cultivar", ["Red"])])
  {
    var key := "checkbox-cultivar-Red-Top";
    var parts := ["checkbox", "cultivar", "Red", "Top"];
    assert key == Join(parts, '-');
    SplitJoin(parts, '-');
    assert "checkbox" <= key;
    assert IsCheckbox(key) && !Malformed(key);
    ParsePostLast([key]);
    assert [key][..0] == [];
    assert AddValue([], "cultivar", "Red") == [("cultivar", ["Red"])];
  }

  // ---------------------------------------------------------------------------
  // get_filteraible_attr_values

  /** `{'val': v, 'checked': c}`. */
  datatype FilterEntry<V> = FilterEntry(val: V, checked: int)

  /** What the loop of `get_filteraible_attr_values` can raise:
      `Attribute.DoesNotExist` from `check_is_attr_filterable` for a name that
      is no attribute's key, and `KeyError` from `filter_data[attr_name]` for a
      filterable attribute missing from the key list. */
  datatype AttrError = DoesNotExist(name: string) | KeyError(key: string)

  /** `check_is_attr_filterable(a)` answers `True`: the lookup finds an
      attribute with key `a` and its `filterable` flag is set. */
  predicate Filterable(lookup: string -> Option<bool>, a: string) {
    lookup(a) == Some(true)
  }

  /** Attribute name to the entries offered for it. */
  type Offered<V> = Dict.Dict<string, seq<FilterEntry<V>>>

  /** The blank structure: an empty list for every attribute key. */
  function Blank<V>(keys: seq<string>): Offered<V> {
    if keys == [] then [] else Dict.Set(Blank(keys[..|keys| - 1]), keys[|keys| - 1], [])
  }

  lemma {:induction false} BlankShape<V>(keys: seq<string>)
    ensures Dict.WellFormed(Blank<V>(keys)) && Dict.Keys(Blank<V>(keys)) == Dedup(keys)
    ensures forall i :: 0 <= i < |Blank<V>(keys)| ==> Blank<V>(keys)[i].1 == []
  {
    if keys != [] {
      var init := keys[..|keys| - 1];
      var k := keys[|keys| - 1];
      BlankShape<V>(init);
      var b := Blank<V>(keys);
      assert Dict.HasKey(Blank<V>(init), k) <==> k in Dedup(init);
      forall i | 0 <= i < |b| ensures b[i].1 == [] {
        Dict.GetAt(b, i);
        if b[i].0 != k {
          Dict.GetAt(Blank<V>(init), Dict.IndexOf(Blank<V>(init), b[i].0));
        }
      }
    }
  }

  /** The loop state: the structure being filled and `used_values`. */
  datatype Collect<V> = Collect(offered: Offered<V>, used: Dict.Dict<string, seq<V>>)

  /** `used_values[a]`, or nothing when `a` has no entry yet. */
  function UsedOf<V>(used: Dict.Dict<string, seq<V>>, a: string): seq<V> {
    if Dict.HasKey(used, a) then Dict.Get(used, a) else []
  }

  /** The body of the inner loop for attribute `a` of value `v`: `used_values`
      gets an entry, then `check_is_attr_filterable(a)` may raise. */
  function Visit<V(==)>(st: Collect<V>, a: string, v: V, lookup: string -> Option<bool>): Result<Collect<V>, AttrError> {
    var used := if Dict.HasKey(st.used, a) then st.used else Dict.Set(st.used, a, []);
    if lookup(a).None? then Failure(DoesNotExist(a))
    else if !Filterable(lookup, a) || v in Dict.Get(used, a) then Success(st.(used := used))
    else if !Dict.HasKey(st.offered, a) then Failure(KeyError(a))
    else Success(Collect(Dict.Set(st.offered, a, Dict.Get(st.offered, a) + [FilterEntry(v, 1)]),
                         Dict.Set(used, a, Dict.Get(used, a) + [v])))
  }

  /** The inner loop over the attributes of one plant, continued over `pairs`. */
  function VisitAll<V(==)>(st: Collect<V>, pairs: seq<(string, V)>, lookup: string -> Option<bool>)
    : Result<Collect<V>, AttrError>
  {
    if pairs == [] then Success(st)
    else
      var prev :- VisitAll(st, pairs[..|pairs| - 1], lookup);
      Visit(prev, pairs[|pairs| - 1].0, pairs[|pairs| - 1].1, lookup)
  }

  /** The outer loop over the plants' attribute dicts (`rp.attrs_as_dic`). */
  function Fill<V(==)>(st: Collect<V>, plants: seq<Dict.Dict<string, V>>, lookup: string -> Option<bool>)
    : Result<Collect<V>, AttrError>
  {
    if plants == [] then Success(st)
    else
      var prev :- Fill(st, plants[..|plants| - 1], lookup);
      VisitAll(prev, plants[|plants| - 1], lookup)
  }

  /** `get_filteraible_attr_values(rich_plants)` with the attribute keys and the
      lookup behind `check_is_attr_filterable` as parameters: `lookup(a)` is the
      `filterable` flag of the attribute with key `a`, or `None` when
      `Attribute.objects.get` finds none. */
  function FilterableValues<V(==)>(keys: seq<string>, lookup: string -> Option<bool>,
                                   plants: seq<Dict.Dict<string, V>>): Result<Offered<V>, AttrError>
  {
    var st :- Fill(Collect(Blank(keys), []), plants, lookup);
    Success(st.offered)
  }

  // Reference definitions

  /** Every `(attribute, value)` pair of the plants, plant by plant. */
  function Flat<V>(plants: seq<Dict.Dict<string, V>>): seq<(string, V)> {
    if plants == [] then [] else Flat(plants[..|plants| - 1]) + plants[|plants| - 1]
  }

  /** The values of attribute `a` over all plants, in order. */
  function Column<V>(plants: seq<Dict.Dict<string, V>>, a: string): seq<V> {
    ValuesOf(Flat(plants), a)
  }

  /** The values offered for `a` after `pairs`: each distinct value once, in
      first-seen order, for a filterable attribute; none otherwise. */
  function Offer<V(==)>(pairs: seq<(string, V)>, a: string, lookup: string -> Option<bool>): seq<V> {
    if Filterable(lookup, a) then Dedup(ValuesOf(pairs, a)) else []
  }

  /** Every value as an entry with `checked == 1`. */
  function CheckedEntries<V>(vs: seq<V>): (es: seq<FilterEntry<V>>)
    ensures |es| == |vs|
    ensures forall i :: 0 <= i < |vs| ==> es[i] == FilterEntry(vs[i], 1)
  {
    seq(|vs|, i requires 0 <= i < |vs| => FilterEntry(vs[i], 1))
  }

  /** Every attribute that occurs in `pairs` is found by the lookup, and every
      filterable one is one of the keys. */
  ghost predicate AllListed<V>(pairs: seq<(string, V)>, keys: seq<string>, lookup: string -> Option<bool>) {
    forall a :: ValuesOf(pairs, a) != [] ==> lookup(a).Some? && (Filterable(lookup, a) ==> a in keys)
  }

  /** The loop state after `pairs`. */
  ghost predicate Inv<V>(st: Collect<V>, keys: seq<string>, lookup: string -> Option<bool>, pairs: seq<(string, V)>) {
    && Dict.WellFormed(st.offered)
    && Dict.Keys(st.offered) == Dedup(keys)
    && (forall i :: 0 <= i < |st.offered| ==>
          st.offered[i].1 == CheckedEntries(Offer(pairs, st.offered[i].0, lookup)))
    && Dict.WellFormed(st.used)
    && forall a :: UsedOf(st.used, a) == Offer(pairs, a, lookup)
  }

  lemma ValuesOfSnoc<V>(pairs: seq<(string, V)>, p: (string, V), a: string)
    ensures ValuesOf(pairs + [p], a) == ValuesOf(pairs, a) + (if p.0 == a then [p.1] else [])
  {
    assert (pairs + [p])[..|pairs|] == pairs;
  }

  lemma DedupSnoc<T>(s: seq<T>, x: T)
    ensures Dedup(s + [x]) == if x in Dedup(s) then Dedup(s) else Dedup(s) + [x]
  {
    assert (s + [x])[..|s|] == s;
  }

  /** How one more pair changes what is offered for `b`. */
  lemma OfferSnoc<V>(pairs: seq<(string, V)>, a: string, v: V, b: string, lookup: string -> Option<bool>)
    ensures Offer(pairs + [(a, v)], b, lookup)
         == if b == a && Filterable(lookup, a) && v !in Offer(pairs, a, lookup)
            then Offer(pairs, a, lookup) + [v] else Offer(pairs, b, lookup)
  {
    ValuesOfSnoc(pairs, (a, v), b);
    if b == a {
      DedupSnoc(ValuesOf(pairs, a), v);
    } else {
      assert ValuesOf(pairs + [(a, v)], b) == ValuesOf(pairs, b);
    }
  }

  /** A pair that adds no new offer leaves every offer as it was. */
  lemma OfferUnchanged<V>(pairs: seq<(string, V)>, a: string, v: V, lookup: string -> Option<bool>)
    requires !Filterable(lookup, a) || v in Offer(pairs, a, lookup)
    ensures forall b :: Offer(pairs + [(a, v)], b, lookup) == Offer(pairs, b, lookup)
  {
    forall b ensures Offer(pairs + [(a, v)], b, lookup) == Offer(pairs, b, lookup) {
      OfferSnoc(pairs, a, v, b, lookup);
    }
  }

  lemma AllListedSnoc<V>(pairs: seq<(string, V)>, keys: seq<string>, lookup: string -> Option<bool>, a: string, v: V)
    requires AllListed(pairs, keys, lookup)
    ensures AllListed(pairs + [(a, v)], keys, lookup) <==> lookup(a).Some? && (Filterable(lookup, a) ==> a in keys)
  {
    forall b ensures ValuesOf(pairs + [(a, v)], b) == ValuesOf(pairs, b) + (if b == a then [v] else []) {
      ValuesOfSnoc(pairs, (a, v), b);
    }
  }

  lemma HasKeyDedup<V>(d: Dict.Dict<string, V>, keys: seq<string>, a: string)
    requires Dict.Keys(d) == Dedup(keys)
    ensures Dict.HasKey(d, a) <==> a in keys
  {
    if a in keys {
      var i :| 0 <= i < |keys| && keys[i] == a;
    }
  }

  /** `used_values.setdefault(a, [])` changes no lookup. */
  lemma SetDefaultUsed<V>(used: Dict.Dict<string, seq<V>>, a: string)
    requires Dict.WellFormed(used)
    ensures var u := if Dict.HasKey(used, a) then used else Dict.Set(used, a, []);
      Dict.WellFormed(u) && Dict.HasKey(u, a) && forall b :: UsedOf(u, b) == UsedOf(used, b)
  {
  }

  lemma CheckedEntriesSnoc<V>(vs: seq<V>, v: V)
    ensures CheckedEntries(vs + [v]) == CheckedEntries(vs) + [FilterEntry(v, 1)]
  {
  }

  /** Recording a new value: the entry list of `a` grows by it. */
  lemma AddOfferEntries<V>(offered: Offered<V>, lookup: string -> Option<bool>,
                           pairs: seq<(string, V)>, a: string, v: V)
    requires Dict.WellFormed(offered) && Dict.HasKey(offered, a)
    requires forall i :: 0 <= i < |offered| ==> offered[i].1 == CheckedEntries(Offer(pairs, offered[i].0, lookup))
    requires Filterable(lookup, a) && v !in Offer(pairs, a, lookup)
    ensures var o := Dict.Set(offered, a, Dict.Get(offered, a) + [FilterEntry(v, 1)]);
      forall i :: 0 <= i < |o| ==> o[i].1 == CheckedEntries(Offer(pairs + [(a, v)], o[i].0, lookup))
  {
    var o := Dict.Set(offered, a, Dict.Get(offered, a) + [FilterEntry(v, 1)]);
    Dict.GetAt(offered, Dict.IndexOf(offered, a));
    OfferSnoc(pairs, a, v, a, lookup);
    CheckedEntriesSnoc(Offer(pairs, a, lookup), v);
    forall i | 0 <= i < |o| ensures o[i].1 == CheckedEntries(Offer(pairs + [(a, v)], o[i].0, lookup)) {
      Dict.GetAt(o, i);
      var b := o[i].0;
      if b != a {
        Dict.GetAt(offered, Dict.IndexOf(offered, b));
        OfferSnoc(pairs, a, v, b, lookup);
      }
    }
  }

  /** Recording a new value: `used_values[a]` grows by it. */
  lemma AddOfferUsed<V>(used: Dict.Dict<string, seq<V>>, lookup: string -> Option<bool>,
                        pairs: seq<(string, V)>, a: string, v: V)
    requires Dict.WellFormed(used) && Dict.HasKey(used, a)
    requires forall b :: UsedOf(used, b) == Offer(pairs, b, lookup)
    requires Filterable(lookup, a) && v !in Dict.Get(used, a)
    ensures var u := Dict.Set(used, a, Dict.Get(used, a) + [v]);
      Dict.WellFormed(u) && forall b :: UsedOf(u, b) == Offer(pairs + [(a, v)], b, lookup)
  {
    var u := Dict.Set(used, a, Dict.Get(used, a) + [v]);
    assert UsedOf(used, a) == Offer(pairs, a, lookup);
    forall b ensures UsedOf(u, b) == Offer(pairs + [(a, v)], b, lookup) {
      OfferSnoc(pairs, a, v, b, lookup);
      if b != a {
        assert UsedOf(u, b) == UsedOf(used, b);
      }
    }
  }

  /** The inner loop body keeps the invariant, and fails exactly on an attribute
      the lookup does not find or a filterable attribute that is not a key. */
  lemma VisitStep<V>(st: Collect<V>, keys: seq<string>, lookup: string -> Option<bool>,
                     pairs: seq<(string, V)>, a: string, v: V)
    requires Inv(st, keys, lookup, pairs) && AllListed(pairs, keys, lookup)
    ensures Visit(st, a, v, lookup).Success? <==> AllListed(pairs + [(a, v)], keys, lookup)
    ensures Visit(st, a, v, lookup).Success? ==> Inv(Visit(st, a, v, lookup).value, keys, lookup, pairs + [(a, v)])
  {
    AllListedSnoc(pairs, keys, lookup, a, v);
    HasKeyDedup(st.offered, keys, a);
    SetDefaultUsed(st.used, a);
    var used := if Dict.HasKey(st.used, a) then st.used else Dict.Set(st.used, a, []);
    assert UsedOf(used, a) == Dict.Get(used, a);
    if !Filterable(lookup, a) || v in Dict.Get(used, a) {
      OfferUnchanged(pairs, a, v, lookup);
      if Filterable(lookup, a) {
        ValuesOfMember(pairs, a);
        assert ValuesOf(pairs, a) != [];
      }
    } else if Dict.HasKey(st.offered, a) {
      assert forall b :: UsedOf(used, b) == Offer(pairs, b, lookup);
      AddOfferEntries(st.offered, lookup, pairs, a, v);
      AddOfferUsed(used, lookup, pairs, a, v);
    }
  }

  lemma AllListedPrefix<V>(pairs: seq<(string, V)>, keys: seq<string>, lookup: string -> Option<bool>)
    requires pairs != [] && AllListed(pairs, keys, lookup)
    ensures AllListed(pairs[..|pairs| - 1], keys, lookup)
  {
    var init := pairs[..|pairs| - 1];
    assert init + [pairs[|pairs| - 1]] == pairs;
    forall b | Filterable(lookup, b) && ValuesOf(init, b) != [] ensures b in keys {
      ValuesOfSnoc(init, pairs[|pairs| - 1], b);
    }
  }

  lemma VisitAllLast<V>(st: Collect<V>, pairs: seq<(string, V)>, lookup: string -> Option<bool>)
    requires pairs != []
    ensures var prev := VisitAll(st, pairs[..|pairs| - 1], lookup);
      && (prev.Failure? ==> VisitAll(st, pairs, lookup) == prev)
      && (prev.Success? ==> VisitAll(st, pairs, lookup)
                              == Visit(prev.value, pairs[|pairs| - 1].0, pairs[|pairs| - 1].1, lookup))
  {
  }

  /** The attribute loop, from the blank structure, keeps the invariant and fails
      exactly when some attribute is unknown to the lookup, or is filterable and
      not among the keys. */
  lemma {:induction false} VisitAllSpec<V>(keys: seq<string>, lookup: string -> Option<bool>, pairs: seq<(string, V)>)
    ensures var r := VisitAll(Collect(Blank(keys), []), pairs, lookup);
      && (r.Success? <==> AllListed(pairs, keys, lookup))
      && (r.Success? ==> Inv(r.value, keys, lookup, pairs))
  {
    var st := Collect(Blank<V>(keys), []);
    if pairs == [] {
      BlankShape<V>(keys);
    } else {
      var init := pairs[..|pairs| - 1];
      var p := pairs[|pairs| - 1];
      assert init + [p] == pairs;
      VisitAllSpec(keys, lookup, init);
      VisitAllLast(st, pairs, lookup);
      if VisitAll(st, init, lookup).Success? {
        VisitStep(VisitAll(st, init, lookup).value, keys, lookup, init, p.0, p.1);
      } else if AllListed(pairs, keys, lookup) {
        AllListedPrefix(pairs, keys, lookup);
      }
    }
  }

  /** Running the attribute loop over `a + b` is running it over `a`, then over `b`. */
  lemma {:induction false} VisitAllAppend<V>(st: Collect<V>, a: seq<(string, V)>, b: seq<(string, V)>,
                                             lookup: string -> Option<bool>)
    ensures VisitAll(st, a, lookup).Failure? ==> VisitAll(st, a + b, lookup) == VisitAll(st, a, lookup)
    ensures VisitAll(st, a, lookup).Success? ==>
              VisitAll(st, a + b, lookup) == VisitAll(VisitAll(st, a, lookup).value, b, lookup)
    decreases |b|
  {
    if b == [] {
      assert a + b == a;
    } else {
      VisitAllAppend(st, a, b[..|b| - 1], lookup);
      AppendLast(a, b);
      VisitAllLast(st, a + b, lookup);
      if VisitAll(st, a, lookup).Success? {
        VisitAllLast(VisitAll(st, a, lookup).value, b, lookup);
      }
    }
  }

  lemma AppendLast<T>(a: seq<T>, b: seq<T>)
    requires b != []
    ensures (a + b)[..|a + b| - 1] == a + b[..|b| - 1]
    ensures (a + b)[|a + b| - 1] == b[|b| - 1]
  {
  }

  /** The nested loops visit the pairs of all plants in order. */
  lemma {:induction false} FillFlat<V>(st: Collect<V>, plants: seq<Dict.Dict<string, V>>, lookup: string -> Option<bool>)
    ensures Fill(st, plants, lookup) == VisitAll(st, Flat(plants), lookup)
  {
    if plants != [] {
      var init := plants[..|plants| - 1];
      FillFlat(st, init, lookup);
      VisitAllAppend(st, Flat(init), plants[|plants| - 1], lookup);
    }
  }

  /** `get_filteraible_attr_values` raises exactly when some attribute name of
      some plant is unknown to the lookup, or is filterable but not among the
      keys. Otherwise the result has one list per
      key, in key order; a filterable attribute lists each value of its column
      once, in first-seen order, with `checked == 1`; any other attribute lists
      nothing. */
  lemma FilterableValuesSpec<V>(keys: seq<string>, lookup: string -> Option<bool>, plants: seq<Dict.Dict<string, V>>)
    ensures var r := FilterableValues(keys, lookup, plants);
      && (r.Success? <==> forall a :: Column(plants, a) != [] ==> lookup(a).Some? && (Filterable(lookup, a) ==> a in keys))
      && (r.Success? ==>
            && Dict.WellFormed(r.value)
            && Dict.Keys(r.value) == Dedup(keys)
            && forall i :: 0 <= i < |r.value| ==>
                 r.value[i].1 == CheckedEntries(if Filterable(lookup, r.value[i].0) then Dedup(Column(plants, r.value[i].0)) else []))
  {
    FillFlat(Collect(Blank(keys), []), plants, lookup);
    VisitAllSpec(keys, lookup, Flat(plants));
  }

  /** With the lookup of the database, which finds an attribute for exactly the
      names `get_all_keys` lists, the `KeyError` cannot happen: the function
      raises `DoesNotExist` exactly when some plant has an attribute name that
      is not a key. */
  lemma FilterableValuesOverKeys<V>(keys: seq<string>, lookup: string -> Option<bool>,
                                    plants: seq<Dict.Dict<string, V>>)
    requires forall a :: lookup(a).Some? <==> a in keys
    ensures var r := FilterableValues(keys, lookup, plants);
      && (r.Success? <==> forall a :: Column(plants, a) != [] ==> a in keys)
      && (r.Failure? ==> r.error.DoesNotExist?)
  {
    FilterableValuesSpec(keys, lookup, plants);
    FillFlat(Collect(Blank(keys), []), plants, lookup);
    VisitAllErrorKind(keys, lookup, Flat(plants));
  }

  lemma {:induction false} VisitAllErrorKind<V>(keys: seq<string>, lookup: string -> Option<bool>,
                                                pairs: seq<(string, V)>)
    requires forall a :: lookup(a).Some? <==> a in keys
    ensures var r := VisitAll(Collect(Blank(keys), []), pairs, lookup);
      r.Failure? ==> r.error.DoesNotExist?
  {
    if pairs != [] {
      var st := Collect(Blank<V>(keys), []);
      var init := pairs[..|pairs| - 1];
      var p := pairs[|pairs| - 1];
      VisitAllErrorKind(keys, lookup, init);
      VisitAllLast(st, pairs, lookup);
      VisitAllSpec(keys, lookup, init);
      var prev := VisitAll(st, init, lookup);
      if prev.Success? {
        HasKeyDedup(prev.value.offered, keys, p.0);
      }
    }
  }

  // ---------------------------------------------------------------------------
  // filter_data_update

  /** The entries with `checked` set to 0. */
  function Unchecked<V>(es: seq<FilterEntry<V>>): (r: seq<FilterEntry<V>>)
    ensures |r| == |es|
    ensures forall j :: 0 <= j < |es| ==> r[j] == es[j].(checked := 0)
  {
    seq(|es|, j requires 0 <= j < |es| => es[j].(checked := 0))
  }

  /** The first loop: every `checked` of every attribute reset to 0. */
  function ResetAll<V>(full: Offered<V>): (r: Offered<V>)
    ensures |r| == |full|
    ensures forall i :: 0 <= i < |full| ==> r[i] == (full[i].0, Unchecked(full[i].1))
  {
    seq(|full|, i requires 0 <= i < |full| => (full[i].0, Unchecked(full[i].1)))
  }

  /** The innermost loop: every entry whose value is `pv` gets `checked = 1`. */
  function MarkValue<V(==)>(es: seq<FilterEntry<V>>, pv: V): (r: seq<FilterEntry<V>>)
    ensures |r| == |es|
    ensures forall j :: 0 <= j < |es| ==> r[j] == if es[j].val == pv then es[j].(checked := 1) else es[j]
  {
    seq(|es|, j requires 0 <= j < |es| => if es[j].val == pv then es[j].(checked := 1) else es[j])
  }

  /** The loop over the posted values of one attribute. */
  function MarkAll<V(==)>(es: seq<FilterEntry<V>>, pvs: seq<V>): seq<FilterEntry<V>> {
    if pvs == [] then es else MarkValue(MarkAll(es, pvs[..|pvs| - 1]), pvs[|pvs| - 1])
  }

  /** The second loop, over the posted attributes. The lookup
      `full_filled_filter_data[post_attr_name]` happens once per posted value, so
      an attribute that is not a key raises only if it has a posted value. */
  function Mark<V(==)>(full: Offered<V>, post: Dict.Dict<string, seq<V>>): Result<Offered<V>, AttrError> {
    if post == [] then Success(full)
    else
      var prev :- Mark(full, post[..|post| - 1]);
      var (pa, pvs) := post[|post| - 1];
      if pvs == [] then Success(prev)
      else if !Dict.HasKey(prev, pa) then Failure(KeyError(pa))
      else Success(Dict.Set(prev, pa, MarkAll(Dict.Get(prev, pa), pvs)))
  }

  /** `filter_data_update(full_filled_filter_data, post_filter_data)`. */
  function FilterDataUpdate<V(==)>(full: Offered<V>, post: Dict.Dict<string, seq<V>>): Result<Offered<V>, AttrError> {
    Mark(ResetAll(full), post)
  }

  // Reference definitions

  /** The values posted for `a`. */
  function PostedFor<V>(post: Dict.Dict<string, seq<V>>, a: string): seq<V> {
    if Dict.HasKey(post, a) then Dict.Get(post, a) else []
  }

  /** The entries with `checked` 1 exactly for the values in `pvs`. */
  function Updated<V(==)>(es: seq<FilterEntry<V>>, pvs: seq<V>): (r: seq<FilterEntry<V>>)
    ensures |r| == |es|
    ensures forall j :: 0 <= j < |es| ==> r[j] == FilterEntry(es[j].val, if es[j].val in pvs then 1 else 0)
  {
    seq(|es|, j requires 0 <= j < |es| => FilterEntry(es[j].val, if es[j].val in pvs then 1 else 0))
  }

  lemma {:induction false} MarkAllSpec<V>(es: seq<FilterEntry<V>>, pvs: seq<V>)
    ensures |MarkAll(es, pvs)| == |es|
    ensures forall j :: 0 <= j < |es| ==>
              MarkAll(es, pvs)[j] == if es[j].val in pvs then es[j].(checked := 1) else es[j]
  {
    if pvs != [] {
      var init := pvs[..|pvs| - 1];
      MarkAllSpec(es, init);
      assert forall x :: x in pvs <==> x in init || x == pvs[|pvs| - 1] by {
        assert pvs == init + [pvs[|pvs| - 1]];
      }
    }
  }

  /** Resetting and then marking the posted values is `Updated`. */
  lemma MarkAllUnchecked<V>(es: seq<FilterEntry<V>>, pvs: seq<V>)
    ensures MarkAll(Unchecked(es), pvs) == Updated(es, pvs)
  {
    MarkAllSpec(Unchecked(es), pvs);
  }

  lemma PostedForSnoc<V>(post: Dict.Dict<string, seq<V>>, b: string)
    requires post != [] && Dict.WellFormed(post)
    ensures var init := post[..|post| - 1];
      PostedFor(post, b) == if b == post[|post| - 1].0 then post[|post| - 1].1 else PostedFor(init, b)
    ensures !Dict.HasKey(post[..|post| - 1], post[|post| - 1].0)
  {
    var init := post[..|post| - 1];
    var n := |post| - 1;
    assert Dict.Keys(post)[n] == post[n].0;
    assert forall i :: 0 <= i < n ==> Dict.Keys(init)[i] == Dict.Keys(post)[i];
    if b == post[n].0 {
      Dict.GetAt(post, n);
    } else if Dict.HasKey(init, b) {
      var i := Dict.IndexOf(init, b);
      assert post[i] == init[i];
      assert Dict.Keys(post)[i] == b;
      Dict.GetAt(post, i);
      assert Dict.WellFormed(init);
      Dict.GetAt(init, i);
    } else {
      assert !Dict.HasKey(post, b);
    }
  }

  /** The posted attributes that would raise: a non-empty value list for a non-key. */
  predicate PostCovered<V>(full: Offered<V>, post: Dict.Dict<string, seq<V>>) {
    forall k :: 0 <= k < |post| && post[k].1 != [] ==> Dict.HasKey(full, post[k].0)
  }

  /** The marked structure after `post`, entry by entry. */
  predicate UpdatedBy<V(==)>(r: Offered<V>, full: Offered<V>, post: Dict.Dict<string, seq<V>>) {
    && |r| == |full|
    && forall i :: 0 <= i < |full| ==> r[i] == (full[i].0, Updated(full[i].1, PostedFor(post, full[i].0)))
  }

  lemma MarkLast<V>(full: Offered<V>, post: Dict.Dict<string, seq<V>>)
    requires post != []
    ensures var prev := Mark(full, post[..|post| - 1]);
      var (pa, pvs) := post[|post| - 1];
      && (prev.Failure? ==> Mark(full, post).Failure?)
      && (prev.Success? && pvs == [] ==> Mark(full, post) == prev)
      && (prev.Success? && pvs != [] && !Dict.HasKey(prev.value, pa) ==> Mark(full, post).Failure?)
      && (prev.Success? && pvs != [] && Dict.HasKey(prev.value, pa) ==>
            Mark(full, post) == Success(Dict.Set(prev.value, pa, MarkAll(Dict.Get(prev.value, pa), pvs))))
  {
  }

  lemma PostCoveredSnoc<V>(full: Offered<V>, post: Dict.Dict<string, seq<V>>)
    requires post != []
    ensures PostCovered(full, post) <==>
              PostCovered(full, post[..|post| - 1])
              && (post[|post| - 1].1 != [] ==> Dict.HasKey(full, post[|post| - 1].0))
  {
    assert forall k :: 0 <= k < |post| - 1 ==> post[..|post| - 1][k] == post[k];
  }

  /** Marking one more posted attribute. */
  lemma UpdatedBySnoc<V>(prev: Offered<V>, full: Offered<V>, post: Dict.Dict<string, seq<V>>)
    requires Dict.WellFormed(full) && Dict.WellFormed(post) && post != []
    requires UpdatedBy(prev, full, post[..|post| - 1])
    requires Dict.HasKey(prev, post[|post| - 1].0)
    ensures var (pa, pvs) := post[|post| - 1];
      UpdatedBy(Dict.Set(prev, pa, MarkAll(Dict.Get(prev, pa), pvs)), full, post)
  {
    var init := post[..|post| - 1];
    var (pa, pvs) := post[|post| - 1];
    assert Dict.Keys(prev) == Dict.Keys(full);
    assert Dict.WellFormed(prev);
    var r := Dict.Set(prev, pa, MarkAll(Dict.Get(prev, pa), pvs));
    forall i | 0 <= i < |full| ensures r[i] == (full[i].0, Updated(full[i].1, PostedFor(post, full[i].0))) {
      PostedForSnoc(post, full[i].0);
      Dict.GetAt(r, i);
      Dict.GetAt(prev, i);
      if full[i].0 == pa {
        assert PostedFor(init, pa) == [];
        assert Dict.Get(prev, pa) == Updated(full[i].1, []);
        assert Updated(full[i].1, []) == Unchecked(full[i].1);
        MarkAllUnchecked(full[i].1, pvs);
      }
    }
  }

  lemma {:induction false} MarkSpec<V>(full: Offered<V>, post: Dict.Dict<string, seq<V>>)
    requires Dict.WellFormed(full) && Dict.WellFormed(post)
    ensures Mark(ResetAll(full), post).Success? <==> PostCovered(full, post)
    ensures Mark(ResetAll(full), post).Success? ==> UpdatedBy(Mark(ResetAll(full), post).value, full, post)
  {
    var reset := ResetAll(full);
    if post == [] {
      forall i | 0 <= i < |full| ensures reset[i] == (full[i].0, Updated(full[i].1, PostedFor(post, full[i].0))) {
        assert Updated(full[i].1, []) == Unchecked(full[i].1);
      }
    } else {
      var init := post[..|post| - 1];
      var (pa, pvs) := post[|post| - 1];
      assert Dict.WellFormed(init) by {
        forall i, j | 0 <= i < j < |init| ensures Dict.Keys(init)[i] != Dict.Keys(init)[j] {
          assert Dict.Keys(init)[i] == Dict.Keys(post)[i] && Dict.Keys(init)[j] == Dict.Keys(post)[j];
        }
      }
      MarkSpec(full, init);
      MarkLast(reset, post);
      PostCoveredSnoc(full, post);
      var prev := Mark(reset, init);
      if prev.Success? {
        assert Dict.Keys(prev.value) == Dict.Keys(full);
        assert Dict.HasKey(prev.value, pa) <==> Dict.HasKey(full, pa);
        if pvs == [] {
          forall i | 0 <= i < |full| ensures prev.value[i] == (full[i].0, Updated(full[i].1, PostedFor(post, full[i].0))) {
            PostedForSnoc(post, full[i].0);
          }
        } else if Dict.HasKey(full, pa) {
          UpdatedBySnoc(prev.value, full, post);
        }
      }
    }
  }

  /** `filter_data_update` raises exactly when a posted attribute with a value is
      not a key. Otherwise every entry keeps its value and position, and its
      `checked` is 1 exactly when its value was posted for its attribute. */
  lemma FilterDataUpdateSpec<V>(full: Offered<V>, post: Dict.Dict<string, seq<V>>)
    requires Dict.WellFormed(full) && Dict.WellFormed(post)
    ensures FilterDataUpdate(full, post).Success? <==> PostCovered(full, post)
    ensures FilterDataUpdate(full, post).Success? ==>
              var r := FilterDataUpdate(full, post).value;
              && |r| == |full|
              && forall i :: 0 <= i < |full| ==>
                   && r[i].0 == full[i].0
                   && |r[i].1| == |full[i].1|
                   && forall j :: 0 <= j < |full[i].1| ==>
                        && r[i].1[j].val == full[i].1[j].val
                        && r[i].1[j].checked == (if full[i].1[j].val in PostedFor(post, full[i].0) then 1 else 0)
  {
    MarkSpec(full, post);
  }

  /** Updating twice with the same posted data is updating once. */
  lemma FilterDataUpdateIdempotent<V>(full: Offered<V>, post: Dict.Dict<string, seq<V>>)
    requires Dict.WellFormed(full) && Dict.WellFormed(post) && FilterDataUpdate(full, post).Success?
    ensures var once := FilterDataUpdate(full, post).value;
      Dict.WellFormed(once) && FilterDataUpdate(once, post) == Success(once)
  {
    var once := FilterDataUpdate(full, post).value;
    MarkSpec(full, post);
    assert Dict.Keys(once) == Dict.Keys(full);
    assert PostCovered(once, post);
    MarkSpec(once, post);
    var twice := FilterDataUpdate(once, post).value;
    forall i | 0 <= i < |full| ensures twice[i] == once[i] {
      UpdatedTwice(full[i].1, PostedFor(post, full[i].0));
    }
    assert twice == once;
  }

  lemma UpdatedTwice<V>(es: seq<FilterEntry<V>>, pvs: seq<V>)
    ensures Updated(Updated(es, pvs), pvs) == Updated(es, pvs)
  {
  }
}
