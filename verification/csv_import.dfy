/** `PlantCreator` of shell_scripts/create_multiple_plants.py: a semicolon
    separated file whose first line names the attributes, one plant per further
    line. Each line becomes a dict that, with the importing user as `owner`,
    is stored as the data of an addition log. */
module PlantImport {
  import opened Wrappers
  import opened Text
  import opened Seqs
  import Dict
  import LogData

  /** The `IndexError`s the parser can raise. */
  datatype ImportError =
    | NoHeader                      // `self.data[0]` of an empty file
    | UnnamedField(line: string)    // `self.attr_names[i]` for a field past the header

  /** The `';'`-separated fields of a line, all `'\\n'` removed first. */
  function Fields(line: string): (fs: seq<string>)
    ensures |fs| >= 1
  {
    Split(RemoveChar(line, '\n'), ';')
  }

  /** `read_header`: the attribute names of the first line, empty names kept,
      and the lines after it. */
  function ReadHeader(data: seq<string>): Result<(seq<string>, seq<string>), ImportError> {
    if data == [] then Failure(NoHeader) else Success((Fields(data[0]), data[1..]))
  }

  /** Field `i` goes into the dict: both its name and its text are non-empty. */
  predicate Picked(names: seq<string>, fields: seq<string>, i: nat)
    requires i < |fields| <= |names|
  {
    names[i] != "" && fields[i] != ""
  }

  /** The loop of `str_to_dic` over the first `n` fields. */
  function Collect(names: seq<string>, fields: seq<string>, n: nat): Dict.Dict<string, string>
    requires n <= |fields| <= |names|
  {
    if n == 0 then []
    else
      var d := Collect(names, fields, n - 1);
      if Picked(names, fields, n - 1) then Dict.Set(d, names[n - 1], fields[n - 1]) else d
  }

  /** `str_to_dic(line)` against the header `names`. */
  function StrToDic(names: seq<string>, line: string): Result<Dict.Dict<string, string>, ImportError> {
    var fields := Fields(line);
    if |fields| > |names| then Failure(UnnamedField(line)) else Success(Collect(names, fields, |fields|))
  }

  /** No later field with the same name goes into the dict after field `i`. */
  predicate LastPick(names: seq<string>, fields: seq<string>, n: nat, i: nat)
    requires i < n <= |fields| <= |names|
  {
    forall j :: i < j < n ==> !(Picked(names, fields, j) && names[j] == names[i])
  }

  lemma {:induction false} CollectKeys(names: seq<string>, fields: seq<string>, n: nat)
    requires n <= |fields| <= |names|
    ensures Dict.WellFormed(Collect(names, fields, n))
    ensures forall k :: Dict.HasKey(Collect(names, fields, n), k)
              <==> exists i :: 0 <= i < n && Picked(names, fields, i) && names[i] == k
  {
    if n > 0 {
      var d := Collect(names, fields, n - 1);
      CollectKeys(names, fields, n - 1);
      var r := Collect(names, fields, n);
      forall k ensures Dict.HasKey(r, k) <==> exists i :: 0 <= i < n && Picked(names, fields, i) && names[i] == k {
        if Picked(names, fields, n - 1) && names[n - 1] == k {
          assert Dict.HasKey(r, k);
        } else {
          assert Dict.HasKey(r, k) <==> Dict.HasKey(d, k);
          if exists i :: 0 <= i < n && Picked(names, fields, i) && names[i] == k {
            var i :| 0 <= i < n && Picked(names, fields, i) && names[i] == k;
            assert i < n - 1;
          }
        }
      }
    }
  }

  lemma {:induction false} CollectLastPick(names: seq<string>, fields: seq<string>, n: nat)
    requires n <= |fields| <= |names|
    ensures forall i :: 0 <= i < n && Picked(names, fields, i) && LastPick(names, fields, n, i) ==>
              Dict.HasKey(Collect(names, fields, n), names[i])
              && Dict.Get(Collect(names, fields, n), names[i]) == fields[i]
  {
    if n > 0 {
      CollectLastPick(names, fields, n - 1);
      CollectKeys(names, fields, n - 1);
      var r := Collect(names, fields, n);
      forall i | 0 <= i < n && Picked(names, fields, i) && LastPick(names, fields, n, i)
        ensures Dict.HasKey(r, names[i]) && Dict.Get(r, names[i]) == fields[i]
      {
        if i < n - 1 {
          assert LastPick(names, fields, n - 1, i);
        }
      }
    }
  }

  lemma {:induction false} CollectValues(names: seq<string>, fields: seq<string>, n: nat)
    requires n <= |fields| <= |names|
    ensures forall i :: 0 <= i < |Collect(names, fields, n)| ==> Collect(names, fields, n)[i].1 in fields
  {
    if n > 0 {
      var d := Collect(names, fields, n - 1);
      CollectValues(names, fields, n - 1);
      CollectKeys(names, fields, n - 1);
      var r := Collect(names, fields, n);
      if Picked(names, fields, n - 1) {
        var k := names[n - 1];
        forall i | 0 <= i < |r| ensures r[i].1 in fields {
          Dict.GetAt(r, i);
          if r[i].0 != k {
            Dict.GetAt(d, Dict.IndexOf(d, r[i].0));
          }
        }
      }
    }
  }

  /** `str_to_dic` raises exactly when the line has more fields than the header
      has names. Otherwise its keys are the names of the fields where name and
      field are both non-empty; a name's value is its last such field; and no
      value holds a `';'` or a `'\\n'`. */
  lemma StrToDicSpec(names: seq<string>, line: string)
    ensures StrToDic(names, line).Success? <==> |Fields(line)| <= |names|
    ensures StrToDic(names, line).Success? ==>
              var fields := Fields(line);
              var d := StrToDic(names, line).value;
              && Dict.WellFormed(d)
              && (forall k :: Dict.HasKey(d, k)
                    <==> exists i :: 0 <= i < |fields| && Picked(names, fields, i) && names[i] == k)
              && (forall i :: 0 <= i < |fields| && Picked(names, fields, i) && LastPick(names, fields, |fields|, i) ==>
                    Dict.HasKey(d, names[i]) && Dict.Get(d, names[i]) == fields[i])
              && (forall i :: 0 <= i < |d| ==> ';' !in d[i].1 && '\n' !in d[i].1)
  {
    var fields := Fields(line);
    if |fields| <= |names| {
      CollectKeys(names, fields, |fields|);
      CollectLastPick(names, fields, |fields|);
      CollectValues(names, fields, |fields|);
      var d := Collect(names, fields, |fields|);
      forall i | 0 <= i < |d| ensures ';' !in d[i].1 && '\n' !in d[i].1 {
        var k :| 0 <= k < |fields| && fields[k] == d[i].1;
        if '\n' in fields[k] {
          JoinSplit(RemoveChar(line, '\n'), ';');
          JoinMember(fields, ';', '\n');
        }
      }
    }
  }

  // ---------------------------------------------------------------------------
  // Round trips

  /** The dict with `names[i]` mapped to `values[i]`, in column order. */
  function Zip(names: seq<string>, values: seq<string>): Dict.Dict<string, string>
    requires |names| == |values|
  {
    seq(|names|, i requires 0 <= i < |names| => (names[i], values[i]))
  }

  predicate Clear(s: string) {
    ';' !in s && '\n' !in s
  }

  /** The text of a line written from `fields`, with its line break. */
  function Line(fields: seq<string>): string
    requires |fields| >= 1
  {
    Join(fields, ';') + "\n"
  }

  lemma LineFields(fields: seq<string>)
    requires |fields| >= 1 && forall k :: 0 <= k < |fields| ==> Clear(fields[k])
    ensures Fields(Line(fields)) == fields
  {
    RemoveCharSnoc(Join(fields, ';'), '\n');
    JoinMember(fields, ';', '\n');
    SplitJoin(fields, ';');
  }

  lemma {:induction false} CollectAll(names: seq<string>, values: seq<string>, n: nat)
    requires |names| == |values| && n <= |names|
    requires Distinct(names)
    requires forall i :: 0 <= i < |names| ==> names[i] != "" && values[i] != ""
    ensures Collect(names, values, n) == Zip(names[..n], values[..n])
  {
    if n > 0 {
      CollectAll(names, values, n - 1);
      var d := Collect(names, values, n - 1);
      assert Dict.Keys(d) == names[..n - 1];
      assert !Dict.HasKey(d, names[n - 1]);
      assert Zip(names[..n], values[..n]) == d + [(names[n - 1], values[n - 1])];
    }
  }

  /** A line written from non-empty values under distinct non-empty names is
      read back as the dict pairing each name with its value. */
  lemma StrToDicRoundTrip(names: seq<string>, values: seq<string>)
    requires |names| == |values| >= 1
    requires Distinct(names)
    requires forall i :: 0 <= i < |names| ==> names[i] != "" && values[i] != "" && Clear(values[i])
    ensures StrToDic(names, Line(values)) == Success(Zip(names, values))
  {
    LineFields(values);
    CollectAll(names, values, |values|);
    assert names[..|names|] == names && values[..|values|] == values;
  }

  /** A header written from names without separators or line breaks is read
      back as those names, followed by the remaining lines. */
  lemma ReadHeaderRoundTrip(names: seq<string>, rows: seq<string>)
    requires |names| >= 1 && forall k :: 0 <= k < |names| ==> Clear(names[k])
    ensures ReadHeader([Line(names)] + rows) == Success((names, rows))
  {
    LineFields(names);
    assert ([Line(names)] + rows)[1..] == rows;
  }

  /** When two columns share a name, the later non-empty field wins. */
  lemma LaterColumnWins(name: string, first: string, second: string)
    requires name != "" && first != "" && second != "" && Clear(first) && Clear(second)
    ensures StrToDic([name, name], Line([first, second])) == Success([(name, second)])
  {
    LineFields([first, second]);
    var one := Collect([name, name], [first, second], 1);
    assert Picked([name, name], [first, second], 0);
    assert Collect([name, name], [first, second], 0) == [];
    assert one == Dict.Set([], name, first);
    assert one == [(name, first)];
    var two := Dict.Set(one, name, second);
    assert Dict.Keys(two) == [name];
    Dict.GetAt(two, 0);
    assert two == [(name, second)];
  }

  // ---------------------------------------------------------------------------
  // create_objects

  /** What a run leaves behind: the logged data dicts, the number of plants
      created, and the error that stopped the run, if any. */
  datatype ImportRun = ImportRun(logs: seq<LogData.Data>, plantsCreated: nat, error: Option<ImportError>)

  function AsValues(dic: Dict.Dict<string, string>): (r: LogData.Data)
    ensures Dict.Keys(r) == Dict.Keys(dic)
  {
    seq(|dic|, i requires 0 <= i < |dic| => (dic[i].0, LogData.Str(dic[i].1)))
  }

  /** The data stored for one line: the parsed dict with `'owner'` set to the
      user id, cleaned by `create_log`. */
  function LogOf(dic: Dict.Dict<string, string>, userId: int): LogData.Data {
    LogData.CleanData(Dict.Set(AsValues(dic), "owner", LogData.Number(userId)))
  }

  /** `create_objects` over the lines after the header. A plant is created
      before its line is parsed, so a line that raises still leaves a plant. */
  function CreateObjects(names: seq<string>, lines: seq<string>, userId: int): ImportRun {
    if lines == [] then ImportRun([], 0, None)
    else
      var prev := CreateObjects(names, lines[..|lines| - 1], userId);
      if prev.error.Some? then prev
      else
        match StrToDic(names, lines[|lines| - 1])
        case Failure(e) => ImportRun(prev.logs, prev.plantsCreated + 1, Some(e))
        case Success(dic) => ImportRun(prev.logs + [LogOf(dic, userId)], prev.plantsCreated + 1, None)
  }

  /** The logged data always has `'owner'` set to the importing user, whatever
      the file says; every other key is a parsed column, with its cleaned text. */
  lemma LogOfSpec(dic: Dict.Dict<string, string>, userId: int)
    requires Dict.WellFormed(dic)
    ensures var log := LogOf(dic, userId);
      && Dict.WellFormed(log)
      && Dict.HasKey(log, "owner") && Dict.Get(log, "owner") == LogData.Number(userId)
      && (forall k :: k != "owner" ==> (Dict.HasKey(log, k) <==> Dict.HasKey(dic, k)))
      && (forall k :: k != "owner" && Dict.HasKey(dic, k) ==>
            Dict.Get(log, k) == LogData.Str(LogData.Clean(Dict.Get(dic, k))))
  {
    var vals := AsValues(dic);
    var withOwner := Dict.Set(vals, "owner", LogData.Number(userId));
    var log := LogOf(dic, userId);
    LogData.CleanDataSpec(withOwner);
    forall k | Dict.HasKey(withOwner, k) ensures Dict.HasKey(log, k) <==> true {
      LogData.CleanDataGet(withOwner, k);
    }
    forall k | k != "owner" && Dict.HasKey(dic, k)
      ensures Dict.Get(log, k) == LogData.Str(LogData.Clean(Dict.Get(dic, k)))
    {
      Dict.IndexOfSameKeys(dic, vals, k);
      LogData.CleanDataGet(withOwner, k);
    }
    LogData.CleanDataGet(withOwner, "owner");
  }

  /** An `owner` column in the file is overridden by the user id. */
  lemma OwnerColumnOverridden(owner: string, userId: int)
    requires owner != "" && Clear(owner)
    ensures StrToDic(["owner"], Line([owner])) == Success([("owner", owner)])
    ensures LogOf([("owner", owner)], userId) == [("owner", LogData.Number(userId))]
  {
    StrToDicRoundTrip(["owner"], [owner]);
    assert Zip(["owner"], [owner]) == [("owner", owner)];
    var vals := AsValues([("owner", owner)]);
    var withOwner := Dict.Set(vals, "owner", LogData.Number(userId));
    assert Dict.Keys(withOwner) == ["owner"];
    Dict.GetAt(withOwner, 0);
    assert withOwner == [("owner", LogData.Number(userId))];
  }

  /** The first `|logs|` lines parse, and `logs` holds their data in order. */
  predicate Logged(names: seq<string>, lines: seq<string>, userId: int, logs: seq<LogData.Data>) {
    && |logs| <= |lines|
    && forall k :: 0 <= k < |logs| ==>
         StrToDic(names, lines[k]).Success? && logs[k] == LogOf(StrToDic(names, lines[k]).value, userId)
  }

  /** Every line has at most as many fields as the header has names. */
  predicate AllFit(names: seq<string>, lines: seq<string>) {
    forall k :: 0 <= k < |lines| ==> |Fields(lines[k])| <= |names|
  }

  lemma LoggedSnoc(names: seq<string>, lines: seq<string>, userId: int, logs: seq<LogData.Data>)
    requires lines != [] && Logged(names, lines[..|lines| - 1], userId, logs)
    ensures Logged(names, lines, userId, logs)
    ensures |logs| == |lines| - 1 && StrToDic(names, lines[|lines| - 1]).Success? ==>
              Logged(names, lines, userId, logs + [LogOf(StrToDic(names, lines[|lines| - 1]).value, userId)])
  {
    assert forall k :: 0 <= k < |lines| - 1 ==> lines[..|lines| - 1][k] == lines[k];
  }

  lemma AllFitSnoc(names: seq<string>, lines: seq<string>)
    requires lines != []
    ensures AllFit(names, lines) <==> AllFit(names, lines[..|lines| - 1]) && |Fields(lines[|lines| - 1])| <= |names|
  {
    assert forall k :: 0 <= k < |lines| - 1 ==> lines[..|lines| - 1][k] == lines[k];
  }

  /** A run stops at the first line with more fields than names: the lines
      before it are logged in order, one plant is created per line reached, and
      a run without error has logged every line. */
  lemma {:induction false} CreateObjectsSpec(names: seq<string>, lines: seq<string>, userId: int)
    ensures var run := CreateObjects(names, lines, userId);
      && (run.error.None? <==> AllFit(names, lines))
      && run.plantsCreated == |run.logs| + (if run.error.Some? then 1 else 0)
      && Logged(names, lines, userId, run.logs)
      && (run.error.None? ==> |run.logs| == |lines|)
      && (run.error.Some? ==> |run.logs| < |lines| && StrToDic(names, lines[|run.logs|]).Failure?)
  {
    if lines != [] {
      var init := lines[..|lines| - 1];
      var last := lines[|lines| - 1];
      CreateObjectsSpec(names, init, userId);
      var prev := CreateObjects(names, init, userId);
      LoggedSnoc(names, lines, userId, prev.logs);
      AllFitSnoc(names, lines);
      if prev.error.Some? {
        assert lines[|prev.logs|] == init[|prev.logs|];
      } else {
        StrToDicSpec(names, last);
      }
    }
  }
}
