/**
 * RosettaScripts variables (`RosettaScriptsVariable`,
 * `RosettaScriptsVariableGroup`): `k=v` pairs passed to the binary as
 * `-parser:script_vars k=v`, or substituted for `%%k%%` markers in the
 * text of a script.
 */
module ScriptVars {
  import opened Wrappers
  import opened Diagnostics
  import opened Dicts
  import opened Text

  const ScriptVarsFlag := "-parser:script_vars"

  /** One script variable. */
  datatype Variable = Variable(k: string, v: string)

  /**
   * `RosettaScriptsVariable.aslist`: the flag, then a token from which the key
   * and the value read back on either side of the `=` after the key.
   */
  function AsList(x: Variable): (r: seq<string>)
    ensures |r| == 2 && r[0] == ScriptVarsFlag
    ensures |r[1]| == |x.k| + 1 + |x.v| && r[1][|x.k|] == '='
    ensures r[1][..|x.k|] == x.k && r[1][|x.k| + 1..] == x.v
  {
    [ScriptVarsFlag, x.k + "=" + x.v]
  }

  /** A group of script variables, in the order they were given. */
  datatype VariableGroup = VariableGroup(variables: seq<Variable>) {
    predicate Empty() {
      |variables| == 0
    }
  }

  /** `aslonglist`: the two tokens of every variable, variable after variable. */
  function AsLongList(vs: seq<Variable>): (r: seq<string>)
    ensures |r| == 2 * |vs|
  {
    if vs == [] then [] else AsList(vs[0]) + AsLongList(vs[1..])
  }

  /** Token `2i` is the flag and token `2i + 1` is `k=v` of the `i`-th variable. */
  lemma {:induction false} AsLongListAt(vs: seq<Variable>, i: nat)
    requires i < |vs|
    ensures AsLongList(vs)[2 * i] == ScriptVarsFlag
    ensures AsLongList(vs)[2 * i + 1] == vs[i].k + "=" + vs[i].v
  {
    if i > 0 {
      AsLongListAt(vs[1..], i - 1);
    }
  }

  lemma {:induction false} AsLongListAppend(a: seq<Variable>, b: seq<Variable>)
    ensures AsLongList(a + b) == AsLongList(a) + AsLongList(b)
  {
    if a != [] {
      assert a + b != [] && (a + b)[0] == a[0] && (a + b)[1..] == a[1..] + b;
      AsLongListAppend(a[1..], b);
      calc {
        AsLongList(a + b);
        AsList((a + b)[0]) + AsLongList((a + b)[1..]);
        AsList(a[0]) + AsLongList(a[1..] + b);
        AsList(a[0]) + (AsLongList(a[1..]) + AsLongList(b));
        (AsList(a[0]) + AsLongList(a[1..])) + AsLongList(b);
      }
    } else {
      assert a + b == b;
    }
  }

  /** The keys a group names. */
  function VariableKeys(vs: seq<Variable>): set<string> {
    set i | 0 <= i < |vs| :: vs[i].k
  }

  /**
   * `asdict`: `{v.k: v.v for v in variables}`. Keys keep the order of their
   * first occurrence; a repeated key takes the value of its last occurrence.
   */
  function AsDict(vs: seq<Variable>): (d: Dict<string>)
    ensures DistinctKeys(d)
    ensures Keys(d) == VariableKeys(vs)
  {
    if vs == [] then []
    else
      var init := vs[..|vs| - 1];
      var d := Put(AsDict(init), vs[|vs| - 1].k, vs[|vs| - 1].v);
      PutKeys(AsDict(init), vs[|vs| - 1].k, vs[|vs| - 1].v);
      PutDistinct(AsDict(init), vs[|vs| - 1].k, vs[|vs| - 1].v);
      assert VariableKeys(vs) == VariableKeys(init) + {vs[|vs| - 1].k} by {
        forall q | q in VariableKeys(vs) ensures q in VariableKeys(init) + {vs[|vs| - 1].k} {
          var i :| 0 <= i < |vs| && vs[i].k == q;
          if i < |vs| - 1 { assert init[i].k == q; }
        }
      }
      d
  }

  /** The value `asdict` gives a key is that of the key's last occurrence in the group. */
  lemma {:induction false} AsDictLastWins(vs: seq<Variable>, i: nat)
    requires i < |vs|
    requires forall j | i < j < |vs| :: vs[j].k != vs[i].k
    ensures Lookup(AsDict(vs), vs[i].k) == Some(vs[i].v)
  {
    var init := vs[..|vs| - 1];
    PutLookup(AsDict(init), vs[|vs| - 1].k, vs[|vs| - 1].v, vs[i].k);
    if i < |vs| - 1 {
      assert init[i] == vs[i];
      AsDictLastWins(init, i);
    }
  }

  /** The variables of a dictionary, item by item. */
  function VariablesOf(d: Dict<string>): seq<Variable> {
    seq(|d|, i requires 0 <= i < |d| => Variable(d[i].0, d[i].1))
  }

  /** `from_dict`: an empty dictionary raises `ValueError`. */
  function FromDict(d: Dict<string>): (r: Result<VariableGroup>)
    ensures r.Err? <==> d == []
  {
    var g := VariableGroup(VariablesOf(d));
    if g.Empty() then Err(ValueError("")) else Ok(g)
  }

  /** `from_dict(d).asdict == d`: a group read from a dictionary gives back that dictionary. */
  lemma {:induction false} FromDictRoundTrip(d: Dict<string>)
    requires DistinctKeys(d) && d != []
    ensures FromDict(d).Ok? && AsDict(FromDict(d).value.variables) == d
  {
    DictRoundTrip(d);
  }

  lemma {:induction false} DictRoundTrip(d: Dict<string>)
    requires DistinctKeys(d)
    ensures AsDict(VariablesOf(d)) == d
  {
    if d != [] {
      var init, last := d[..|d| - 1], d[|d| - 1];
      var vs := VariablesOf(d);
      assert vs[..|vs| - 1] == VariablesOf(init);
      assert vs[|vs| - 1] == Variable(last.0, last.1);
      assert DistinctKeys(init) by {
        forall i, j | 0 <= i < j < |init| ensures init[i].0 != init[j].0 {
          assert init[i] == d[i] && init[j] == d[j];
        }
      }
      DictRoundTrip(init);
      assert last.0 !in Keys(init);
      PutNewKey(init, last.0, last.1);
      calc {
        AsDict(vs);
        Put(AsDict(VariablesOf(init)), last.0, last.1);
        Put(init, last.0, last.1);
        init + [last];
        d;
      }
    }
  }

  /**
   * The group of tests/test_rosetta_wrapper.py:69-76: two variables read from
   * a dictionary give four tokens, flag before each `k=v`.
   */
  lemma FromDictExample()
    ensures var g := FromDict([("input_pdb", "test.pdb"), ("output_pdb", "result.pdb")]);
      && g.Ok? && !g.value.Empty() && |g.value.variables| == 2
      && AsLongList(g.value.variables)
         == ["-parser:script_vars", "input_pdb=test.pdb", "-parser:script_vars", "output_pdb=result.pdb"]
  {
    var vs := VariablesOf([("input_pdb", "test.pdb"), ("output_pdb", "result.pdb")]);
    assert vs == [Variable("input_pdb", "test.pdb"), Variable("output_pdb", "result.pdb")];
    assert vs[1..][1..] == [];
    assert "input_pdb" + "=" + "test.pdb" == "input_pdb=test.pdb";
    assert "output_pdb" + "=" + "result.pdb" == "output_pdb=result.pdb";
  }

  /** The marker a variable replaces in a script. */
  function Marker(k: string): string {
    "%%" + k + "%%"
  }

  /** A script text after substitution, with the warnings emitted on the way. */
  datatype Applied = Applied(text: string, warnings: seq<Warning>)

  /**
   * The substitution `apply_to_xml_content` performs, item by item in
   * dictionary order: a key whose marker occurs in the current text has every
   * occurrence replaced by its value; a key whose marker does not occur leaves
   * the text alone and emits a warning naming the key.
   */
  function Substituted(items: Dict<string>, text: string): (r: Applied)
    ensures |r.warnings| <= |items|
    ensures forall w | w in r.warnings :: w.VariableNotInScript? && w.key in Keys(items)
    ensures DistinctKeys(items) ==> forall i, j | 0 <= i < j < |r.warnings| :: r.warnings[i] != r.warnings[j]
    decreases |items|
  {
    if items == [] then Applied(text, [])
    else
      KeysCons(items[0], items[1..]);
      DistinctKeysTail(items);
      assert [items[0]] + items[1..] == items;
      var k := items[0].0;
      if !Contains(text, Marker(k)) then
        var rest := Substituted(items[1..], text);
        Applied(rest.text, [VariableNotInScript(k)] + rest.warnings)
      else
        Substituted(items[1..], ReplaceAll(text, Marker(k), items[0].1))
  }

  /**
   * `apply_to_xml_content`, as evidently intended: the loop runs over the
   * items of `asdict`. The input string is a value and is not changed.
   */
  method ApplyToXmlContent(g: VariableGroup, xmlContent: string) returns (r: string, warnings: seq<Warning>)
    ensures Applied(r, warnings) == Substituted(AsDict(g.variables), xmlContent)
  {
    var xmlContentCopy := xmlContent;
    var items := AsDict(g.variables);
    warnings := [];
    assert items[0..] == items;
    for i := 0 to |items|
      invariant Substituted(items, xmlContent)
        == Applied(Substituted(items[i..], xmlContentCopy).text, warnings + Substituted(items[i..], xmlContentCopy).warnings)
    {
      SubstitutedStep(items, i, xmlContentCopy);
      var k := items[i].0;
      if !Contains(xmlContentCopy, Marker(k)) {
        ConcatAssoc(warnings, [VariableNotInScript(k)], Substituted(items[i + 1..], xmlContentCopy).warnings);
        warnings := warnings + [VariableNotInScript(k)];
        continue;
      }
      xmlContentCopy := ReplaceAll(xmlContentCopy, Marker(k), items[i].1);
    }
    assert items[|items|..] == [];
    r := xmlContentCopy;
  }

  /** One step of the substitution, at item `i`. */
  lemma SubstitutedStep(items: Dict<string>, i: nat, text: string)
    requires i < |items|
    ensures var k := items[i].0;
      var rest := Substituted(items[i + 1..], text);
      !Contains(text, Marker(k)) ==>
        Substituted(items[i..], text) == Applied(rest.text, [VariableNotInScript(k)] + rest.warnings)
    ensures var k := items[i].0;
      Contains(text, Marker(k)) ==>
        Substituted(items[i..], text) == Substituted(items[i + 1..], ReplaceAll(text, Marker(k), items[i].1))
  {
    assert items[i..][1..] == items[i + 1..];
    assert items[i..][0] == items[i];
  }

  /** A script that carries none of the markers is returned as it is, with one warning per key, in order. */
  lemma {:induction false} SubstitutedNoMarkers(items: Dict<string>, text: string)
    requires forall i | 0 <= i < |items| :: !Contains(text, Marker(items[i].0))
    ensures Substituted(items, text).text == text
    ensures Substituted(items, text).warnings == seq(|items|, i requires 0 <= i < |items| => VariableNotInScript(items[i].0))
  {
    if items != [] {
      SubstitutedNoMarkers(items[1..], text);
    }
  }

  /** A variable whose value is its own marker leaves the script as it is. */
  lemma {:induction false} SubstitutedBySelf(items: Dict<string>, text: string)
    requires forall i | 0 <= i < |items| :: items[i].1 == Marker(items[i].0)
    ensures Substituted(items, text).text == text
  {
    if items != [] {
      ReplaceBySelf(text, Marker(items[0].0));
      SubstitutedBySelf(items[1..], text);
    }
  }

  /**
   * The loop as written at rosetta.py:66, `for k, v in self.asdict`, iterates
   * the dictionary's keys and unpacks each key string into `k, v`: a key of
   * exactly two characters is split into a one-character key and a
   * one-character value; any other key raises `ValueError`.
   */
  function SubstitutedAsWritten(keys: seq<string>, text: string): (r: Result<Applied>)
    ensures r.Err? <==> exists i | 0 <= i < |keys| :: |keys[i]| != 2
    ensures r.Ok? ==> |r.value.warnings| <= |keys|
    ensures r.Ok? ==> forall w | w in r.value.warnings :: exists i | 0 <= i < |keys| :: w == VariableNotInScript(keys[i][..1])
    decreases |keys|
  {
    if keys == [] then Ok(Applied(text, []))
    else if |keys[0]| < 2 then Err(ValueError("not enough values to unpack (expected 2, got " + IntToString(|keys[0]|) + ")"))
    else if |keys[0]| > 2 then Err(ValueError("too many values to unpack (expected 2)"))
    else
      var k := keys[0][..1];
      var v := keys[0][1..];
      if !Contains(text, Marker(k)) then
        match SubstitutedAsWritten(keys[1..], text)
        case Ok(rest) => Ok(Applied(rest.text, [VariableNotInScript(k)] + rest.warnings))
        case Err(e) => Err(e)
      else
        SubstitutedAsWritten(keys[1..], ReplaceAll(text, Marker(k), v))
  }

  function KeyList<V>(d: Dict<V>): seq<string> {
    seq(|d|, i requires 0 <= i < |d| => d[i].0)
  }

  /**
   * The group of the test at tests/test_rosetta_wrapper.py:48-52: as written,
   * the key `cst_value` cannot be unpacked and the call raises, while the
   * intended substitution replaces the marker.
   */
  lemma AsWrittenRejectsTestGroup(text: string)
    requires Contains(text, Marker("cst_value"))
    ensures SubstitutedAsWritten(KeyList(AsDict([Variable("cst_value", "0.4")])), text).Err?
    ensures Substituted(AsDict([Variable("cst_value", "0.4")]), text).text == ReplaceAll(text, Marker("cst_value"), "0.4")
    ensures Substituted(AsDict([Variable("cst_value", "0.4")]), text).warnings == []
  {
    var d := AsDict([Variable("cst_value", "0.4")]);
    assert [Variable("cst_value", "0.4")][..0] == [];
    assert d == [("cst_value", "0.4")];
  }
}
