/**
 * templateman.py, TemplateFromSpec: the rendering pipeline. After the
 * template is preprocessed, four stages run in order: row expansion, wrapper
 * composition, static-data substitution and sub-spec slot substitution.
 */
module Render {
  import opened Wrappers
  import opened PyStr
  import opened Dicts
  import opened Directives

  /** The failures that abort one specification's rendering. */
  datatype Error =
    | ConfigurationError      // a wrapper without the `%(template)s` token
    | MissingSpec(path: string)  // a sub-spec path that does not load

  /** The options the renderer reads: the directive definitions and optional caller data. */
  datatype Options = Options(commands: Commands, data: Option<Dict>)

  /** One result row: column name to the string form of its value. */
  type Row = Dict

  /** The token `%(key)s`. */
  function Placeholder(key: string): (r: string)
    ensures r != [] && r[0] == '%'
  {
    "%(" + key + ")s"
  }

  /** The token a wrapper marks the rendered output with. */
  const TEMPLATE_TOKEN: string := "%(template)s"

  /** The source's `if key_str in guard: text = text.replace(key_str, value)`. */
  function SubstituteKey(text: string, guard: string, key: string, value: string): string
  {
    if Contains(guard, Placeholder(key)) then ReplaceAll(text, Placeholder(key), value) else text
  }

  // ---------------------------------------------------------------- rows

  /**
   * One row's copy of the template: each key in turn acts on the text the
   * earlier keys produced, but only if its placeholder is in the template.
   */
  function SubstituteRow(template: string, current: string, row: Row): string
    decreases |row|
  {
    if row == [] then current
    else SubstituteRow(template, SubstituteKey(current, template, row[0].0, row[0].1), row[1..])
  }

  /** The per-row copies, concatenated in row order. */
  function ExpandedRows(template: string, rows: seq<Row>): string
    decreases |rows|
  {
    if rows == [] then [] else SubstituteRow(template, template, rows[0]) + ExpandedRows(template, rows[1..])
  }

  /** None is the no-data-source sentinel: the template itself is the output. */
  function RowExpansion(template: string, data: Option<seq<Row>>): string
  {
    match data
    case None => template
    case Some(rows) => ExpandedRows(template, rows)
  }

  /** The source's loop over rows and, within a row, over its keys. */
  method ExpandRows(template: string, data: Option<seq<Row>>) returns (output: string)
    ensures output == RowExpansion(template, data)
  {
    if data.None? {
      return template;
    }
    var rows := data.value;
    output := [];
    for i := 0 to |rows|
      invariant output + ExpandedRows(template, rows[i..]) == ExpandedRows(template, rows)
    {
      var row := rows[i];
      var item := template;
      for j := 0 to |row|
        invariant SubstituteRow(template, item, row[j..]) == SubstituteRow(template, template, row)
      {
        var (key, value) := row[j];
        assert row[j..][1..] == row[j + 1..];
        if Contains(template, Placeholder(key)) {
          item := ReplaceAll(item, Placeholder(key), value);
        }
      }
      assert rows[i..][1..] == rows[i + 1..];
      output := output + item;
    }
  }

  /**
   * The sentinel yields the template, an empty row list yields the empty
   * string; the two differ whenever the template is not empty.
   */
  lemma SentinelIsNotEmptyRows(template: string)
    ensures RowExpansion(template, None) == template
    ensures RowExpansion(template, Some([])) == []
    ensures template != [] ==> RowExpansion(template, None) != RowExpansion(template, Some([]))
  {
  }

  /** Expanding `r1 + r2` is expanding `r1` followed by expanding `r2`. */
  lemma {:induction false} ExpandedRowsAppend(template: string, r1: seq<Row>, r2: seq<Row>)
    ensures ExpandedRows(template, r1 + r2) == ExpandedRows(template, r1) + ExpandedRows(template, r2)
    decreases |r1|
  {
    if r1 == [] {
      assert r1 + r2 == r2;
    } else {
      assert (r1 + r2)[1..] == r1[1..] + r2;
      ExpandedRowsAppend(template, r1[1..], r2);
    }
  }

  /** A row none of whose keys has a placeholder in the template yields the template verbatim. */
  lemma {:induction false} UnrelatedRowIsVerbatim(template: string, row: Row)
    requires forall i :: 0 <= i < |row| ==> !Contains(template, Placeholder(row[i].0))
    ensures ExpandedRows(template, [row]) == template
  {
    UnrelatedKeysKeepText(template, template, row);
    assert ExpandedRows(template, [row]) == SubstituteRow(template, template, row) + ExpandedRows(template, []);
  }

  /**
   * A one-key row whose placeholder is in the template cuts the template at
   * every placeholder and glues it back with the value; otherwise the row
   * yields the template.
   */
  lemma OneKeyRow(template: string, key: string, value: string)
    ensures ExpandedRows(template, [[(key, value)]]) ==
              if Contains(template, Placeholder(key)) then Join(Split(template, Placeholder(key)), value)
              else template
  {
    ReplaceAllSplices(template, Placeholder(key), value);
    var row: Row := [(key, value)];
    var rows: seq<Row> := [row];
    assert row[1..] == [] && rows[1..] == [];
    assert SubstituteRow(template, template, row) == SubstituteKey(template, template, key, value);
    assert ExpandedRows(template, [row]) == SubstituteRow(template, template, row) + ExpandedRows(template, []);
  }

  /**
   * A row tests each placeholder against the template, not against the text
   * the earlier keys produced: a placeholder that only an earlier value
   * brings in stays as it is. Static data tests the current output instead,
   * so there the same pair of keys replaces it.
   */
  lemma RowGuardIsTemplate(a: string, b: string, v: string)
    requires !Contains(Placeholder(a), Placeholder(b))
    ensures ExpandedRows(Placeholder(a), [[(a, Placeholder(b)), (b, v)]]) == Placeholder(b)
    ensures SubstituteAll(Placeholder(a), [(a, Placeholder(b)), (b, v)]) == v
  {
    var t := Placeholder(a);
    var pb := Placeholder(b);
    var row: Row := [(a, pb), (b, v)];
    var rows: seq<Row> := [row];
    assert OccursAt(t, 0, t);
    ReplaceWhole(t, pb);
    assert SubstituteKey(t, t, a, pb) == pb;
    assert row[1..] == [(b, v)] && row[1..][1..] == [] && rows[1..] == [];
    assert SubstituteKey(pb, t, b, v) == pb;
    assert SubstituteRow(t, pb, row[1..]) == SubstituteRow(t, pb, []);
    assert SubstituteRow(t, t, row) == pb;
    assert ExpandedRows(t, rows) == SubstituteRow(t, t, row) + ExpandedRows(t, []);
    assert OccursAt(pb, 0, pb);
    ReplaceWhole(pb, v);
    assert SubstituteKey(pb, pb, b, v) == v;
    assert SubstituteAll(t, row) == SubstituteAll(pb, row[1..]);
    assert SubstituteAll(pb, row[1..]) == SubstituteAll(v, []);
  }

  lemma {:induction false} UnrelatedKeysKeepText(template: string, current: string, row: Row)
    requires forall i :: 0 <= i < |row| ==> !Contains(template, Placeholder(row[i].0))
    ensures SubstituteRow(template, current, row) == current
    decreases |row|
  {
    if row != [] {
      UnrelatedKeysKeepText(template, current, row[1..]);
    }
  }

  // ---------------------------------------------------------------- wrapper

  /** The wrapper file's contents lack the token. */
  predicate WrapperLacksToken(wrapper: Option<string>)
  {
    wrapper.Some? && !Contains(wrapper.value, TEMPLATE_TOKEN)
  }

  /**
   * Embeds the output in the wrapper: a configuration error exactly when the
   * token is absent; otherwise the wrapper, cut at every token, is glued back
   * with the output in each cut and nothing else changed.
   */
  function Wrap(output: string, wrapper: Option<string>): (r: Result<string, Error>)
    ensures wrapper.None? ==> r == Success(output)
    ensures r.Failure? <==> WrapperLacksToken(wrapper)
    ensures r.Failure? ==> r.error == ConfigurationError
    ensures wrapper.Some? && r.Success? ==>
              var pieces := Split(wrapper.value, TEMPLATE_TOKEN);
              && Join(pieces, TEMPLATE_TOKEN) == wrapper.value
              && (forall i :: 0 <= i < |pieces| ==> !Contains(pieces[i], TEMPLATE_TOKEN))
              && r.value == Join(pieces, output)
  {
    if wrapper.None? then Success(output)
    else if !Contains(wrapper.value, TEMPLATE_TOKEN) then Failure(ConfigurationError)
    else
      ReplaceAllSplices(wrapper.value, TEMPLATE_TOKEN, output);
      Success(ReplaceAll(wrapper.value, TEMPLATE_TOKEN, output))
  }

  // ---------------------------------------------------------------- static data

  /**
   * The spec's `data` after the caller's `data` is merged in: `update` when the
   * spec has data, a copy of the caller's otherwise.
   */
  function MergedData(specData: Option<Dict>, optionData: Option<Dict>): Option<Dict>
  {
    match optionData
    case None => specData
    case Some(o) => if specData.Some? then Some(Update(specData.value, o)) else Some(o)
  }

  /** On a key both define, the caller's value wins; other keys keep their value. */
  lemma MergeOverrides(specData: Option<Dict>, optionData: Option<Dict>, key: string)
    requires optionData.Some? && IsDict(optionData.value)
    ensures MergedData(specData, optionData).Some?
    ensures Lookup(MergedData(specData, optionData).value, key) ==
              if HasKey(optionData.value, key) then Lookup(optionData.value, key)
              else if specData.Some? then Lookup(specData.value, key)
              else None
  {
    if specData.Some? {
      UpdateOverrides(specData.value, optionData.value, key);
    }
  }

  /** The source's loop over `data`, each key checked against the current output. */
  function SubstituteAll(text: string, d: Dict): string
    decreases |d|
  {
    if d == [] then text else SubstituteAll(SubstituteKey(text, text, d[0].0, d[0].1), d[1..])
  }

  method SubstituteData(output: string, d: Dict) returns (r: string)
    ensures r == SubstituteAll(output, d)
  {
    r := output;
    for i := 0 to |d|
      invariant SubstituteAll(r, d[i..]) == SubstituteAll(output, d)
    {
      var (key, value) := d[i];
      assert d[i..][1..] == d[i + 1..];
      if Contains(r, Placeholder(key)) {
        r := ReplaceAll(r, Placeholder(key), value);
      }
    }
  }

  /** Keys whose placeholder does not occur leave the output unchanged. */
  lemma {:induction false} AbsentKeysKeepText(text: string, d: Dict)
    requires forall i :: 0 <= i < |d| ==> !Contains(text, Placeholder(d[i].0))
    ensures SubstituteAll(text, d) == text
    decreases |d|
  {
    if d != [] {
      AbsentKeysKeepText(text, d[1..]);
    }
  }

  /**
   * One key replaces every `%(key)s` with its value: the text is cut at each
   * placeholder and glued back with the value.
   */
  lemma SubstituteOneKey(text: string, key: string, value: string)
    ensures var pieces := Split(text, Placeholder(key));
            && Join(pieces, Placeholder(key)) == text
            && (forall i :: 0 <= i < |pieces| ==> !Contains(pieces[i], Placeholder(key)))
            && SubstituteAll(text, [(key, value)]) == Join(pieces, value)
  {
    ReplaceAllSplices(text, Placeholder(key), value);
    if !Contains(text, Placeholder(key)) {
      ReplaceAllAbsent(text, Placeholder(key), value);
    }
  }

  /** Substituting `d1 + d2` is substituting `d1`, then `d2`. */
  lemma {:induction false} SubstituteAllAppend(text: string, d1: Dict, d2: Dict)
    ensures SubstituteAll(text, d1 + d2) == SubstituteAll(SubstituteAll(text, d1), d2)
    decreases |d1|
  {
    if d1 == [] {
      assert d1 + d2 == d2;
    } else {
      assert (d1 + d2)[1..] == d1[1..] + d2;
      SubstituteAllAppend(SubstituteKey(text, text, d1[0].0, d1[0].1), d1[1..], d2);
    }
  }

  // ---------------------------------------------------------------- sub-spec slots

  /** The outcome of rendering a child spec, by path; a path that is not there does not load. */
  function ChildOutput(children: map<string, Result<string, Error>>, path: string): Result<string, Error>
  {
    if path in children then children[path] else Failure(MissingSpec(path))
  }

  /**
   * The source's loop over `specs`: each child is rendered, and its output
   * replaces `%(slot)s` when the output holds it; a failing child aborts.
   */
  function SlotStage(output: string, specs: Dict, children: map<string, Result<string, Error>>): Result<string, Error>
    decreases |specs|
  {
    if specs == [] then Success(output)
    else
      var child :- ChildOutput(children, specs[0].1);
      SlotStage(SubstituteKey(output, output, specs[0].0, child), specs[1..], children)
  }

  method SubstituteSpecs(output: string, specs: Dict, children: map<string, Result<string, Error>>) returns (r: Result<string, Error>)
    ensures r == SlotStage(output, specs, children)
  {
    var text := output;
    for i := 0 to |specs|
      invariant SlotStage(text, specs[i..], children) == SlotStage(output, specs, children)
    {
      var (slot, path) := specs[i];
      assert specs[i..][1..] == specs[i + 1..];
      var child := ChildOutput(children, path);
      if child.Failure? {
        return Failure(child.error);
      }
      if Contains(text, Placeholder(slot)) {
        text := ReplaceAll(text, Placeholder(slot), child.value);
      }
    }
    r := Success(text);
  }

  /** Every child rendered, slot by slot; the first failure in `specs` order otherwise. */
  function ResolveChildren(specs: Dict, children: map<string, Result<string, Error>>): (r: Result<Dict, Error>)
    ensures r.Success? ==> |r.value| == |specs|
    ensures r.Success? ==> forall i :: 0 <= i < |specs| ==>
              r.value[i].0 == specs[i].0 && ChildOutput(children, specs[i].1) == Success(r.value[i].1)
    ensures r.Failure? <==> exists i :: 0 <= i < |specs| && ChildOutput(children, specs[i].1).Failure?
    ensures r.Failure? ==> exists i :: 0 <= i < |specs| && ChildOutput(children, specs[i].1) == Failure(r.error) &&
                                       forall j :: 0 <= j < i ==> ChildOutput(children, specs[j].1).Success?
    decreases |specs|
  {
    if specs == [] then Success([])
    else
      match ChildOutput(children, specs[0].1)
      case Failure(e) => Failure(e)
      case Success(child) =>
        var rest := ResolveChildren(specs[1..], children);
        assert forall i :: 1 <= i < |specs| ==> specs[i] == specs[1..][i - 1];
        if rest.Failure? then
          var i :| 0 <= i < |specs[1..]| && ChildOutput(children, specs[1..][i].1).Failure?;
          assert ChildOutput(children, specs[i + 1].1).Failure?;
          Failure(rest.error)
        else
          var r := [(specs[0].0, child)] + rest.value;
          assert forall i :: 1 <= i < |specs| ==> r[i] == rest.value[i - 1];
          Success(r)
  }

  /**
   * Slot substitution is static-data substitution with the children's
   * outputs as the values, once every child has rendered.
   */
  lemma {:induction false} SlotsAreChildData(output: string, specs: Dict, children: map<string, Result<string, Error>>)
    ensures SlotStage(output, specs, children) ==
              match ResolveChildren(specs, children)
              case Failure(e) => Failure(e)
              case Success(values) => Success(SubstituteAll(output, values))
    decreases |specs|
  {
    if specs != [] {
      var c := ChildOutput(children, specs[0].1);
      if c.Success? {
        SlotsAreChildData(SubstituteKey(output, output, specs[0].0, c.value), specs[1..], children);
        var rest := ResolveChildren(specs[1..], children);
        if rest.Success? {
          var values := [(specs[0].0, c.value)] + rest.value;
          assert values[1..] == rest.value;
        }
      }
    }
  }

  /**
   * A child is rendered even when its slot is absent: its failure still
   * aborts, and when all children render and no slot placeholder occurs, the
   * output comes back unchanged.
   */
  lemma AbsentSlotsDiscardChildren(output: string, specs: Dict, children: map<string, Result<string, Error>>)
    requires forall i :: 0 <= i < |specs| ==> !Contains(output, Placeholder(specs[i].0))
    ensures SlotStage(output, specs, children).Failure? <==> exists i :: 0 <= i < |specs| && ChildOutput(children, specs[i].1).Failure?
    ensures SlotStage(output, specs, children).Success? ==> SlotStage(output, specs, children).value == output
  {
    SlotsAreChildData(output, specs, children);
    var resolved := ResolveChildren(specs, children);
    if resolved.Success? {
      AbsentKeysKeepText(output, resolved.value);
    }
  }

  // ---------------------------------------------------------------- the pipeline

  /**
   * A specification as the renderer sees it: the contents of its template and
   * wrapper files (None when the key is absent or empty), its `specs`
   * mapping, and its `data` mapping, which rendering updates in place.
   */
  class SpecData {
    const template: Option<string>
    const wrapper: Option<string>
    const specs: Option<Dict>
    var data: Option<Dict>

    constructor (template: Option<string>, wrapper: Option<string>, data: Option<Dict>, specs: Option<Dict>)
      ensures this.template == template && this.wrapper == wrapper
      ensures this.data == data && this.specs == specs
    {
      this.template := template;
      this.wrapper := wrapper;
      this.data := data;
      this.specs := specs;
    }

    /** `spec_data['data'].update(options['data'])`, or a copy when the spec has none. */
    method MergeOptionData(optionData: Option<Dict>)
      modifies this
      ensures data == MergedData(old(data), optionData)
    {
      if optionData.Some? {
        if data.Some? {
          data := Some(Update(data.value, optionData.value));
        } else {
          data := Some(optionData.value);
        }
      }
    }
  }

  /** The rendered output of a specification, stage by stage. */
  function Render(template: Option<string>, wrapper: Option<string>, data: Option<Dict>, specs: Option<Dict>,
                  rows: Option<seq<Row>>, options: Options, fs: FileSystem,
                  children: map<string, Result<string, Error>>): Result<string, Error>
    requires WellFormed(options.commands)
  {
    var preprocessed := Preprocess(template.GetOr([]), options.commands, fs, 0);
    var output := RowExpansion(preprocessed, rows);
    var wrapped :- Wrap(output, wrapper);
    var merged := MergedData(data, options.data);
    var substituted := if merged.Some? then SubstituteAll(wrapped, merged.value) else wrapped;
    if specs.Some? then SlotStage(substituted, specs.value, children) else Success(substituted)
  }

  /**
   * The source's TemplateFromSpec, with the rows and the children's outputs as
   * inputs. The spec's data is merged with the caller's unless the wrapper
   * check has already aborted.
   */
  method TemplateFromSpec(spec: SpecData, rows: Option<seq<Row>>, options: Options, fs: FileSystem,
                          children: map<string, Result<string, Error>>) returns (r: Result<string, Error>)
    requires WellFormed(options.commands)
    modifies spec
    ensures r == Render(spec.template, spec.wrapper, old(spec.data), spec.specs, rows, options, fs, children)
    ensures spec.data == if WrapperLacksToken(spec.wrapper) then old(spec.data) else MergedData(old(spec.data), options.data)
  {
    var template := TemplateFromCommands(spec.template.GetOr([]), options.commands, fs, 0);
    var output := ExpandRows(template, rows);

    var wrapped := Wrap(output, spec.wrapper);
    if wrapped.Failure? {
      return Failure(wrapped.error);
    }
    output := wrapped.value;

    spec.MergeOptionData(options.data);
    if spec.data.Some? {
      output := SubstituteData(output, spec.data.value);
    }

    if spec.specs.Some? {
      r := SubstituteSpecs(output, spec.specs.value, children);
    } else {
      r := Success(output);
    }
  }

  /**
   * With no data source, wrapper, data or specs, the output is the
   * preprocessed template; with an empty row list instead, it is empty.
   */
  lemma SentinelRendersTemplate(template: Option<string>, options: Options, fs: FileSystem,
                                children: map<string, Result<string, Error>>)
    requires WellFormed(options.commands) && options.data.None?
    ensures Render(template, None, None, None, None, options, fs, children) ==
              Success(Preprocess(template.GetOr([]), options.commands, fs, 0))
    ensures Render(template, None, None, None, Some([]), options, fs, children) == Success([])
  {
  }

  /** A wrapper without the token aborts the rendering with a configuration error. */
  lemma MissingTokenAborts(template: Option<string>, wrapper: Option<string>, data: Option<Dict>, specs: Option<Dict>,
                           rows: Option<seq<Row>>, options: Options, fs: FileSystem,
                           children: map<string, Result<string, Error>>)
    requires WellFormed(options.commands) && WrapperLacksToken(wrapper)
    ensures Render(template, wrapper, data, specs, rows, options, fs, children) == Failure(ConfigurationError)
  {
  }

  /** Without a data source or data, `Hello %(name)s` is rendered as it is. */
  lemma HelloUnsubstituted()
    ensures Render(Some("Hello %(name)s"), None, None, None, None, Options(map[], None), map[], map[]) ==
              Success("Hello %(name)s")
  {
  }

  /**
   * With `data: {name: v}`, `Hello %(name)s` is rendered as `Hello v` (for
   * `v = World`, `Hello World`).
   */
  lemma HelloWorld(v: string)
    ensures Render(Some("Hello %(name)s"), None, Some([("name", v)]), None, None, Options(map[], None), map[], map[]) ==
              Success("Hello " + v)
  {
    var text := "Hello %(name)s";
    assert text == "Hello " + Placeholder("name");
    TrailingPlaceholder("Hello ", "name", v);
    assert Preprocess(text, map[], map[], 0) == text;
    DataOnlyRender(text, [("name", v)], map[], map[], map[]);
  }

  /** A text that ends in its only placeholder gets the value in its place. */
  lemma TrailingPlaceholder(lead: string, key: string, value: string)
    requires '%' !in lead
    ensures SubstituteAll(lead + Placeholder(key), [(key, value)]) == lead + value
  {
    var token := Placeholder(key);
    var text := lead + token;
    assert OccursAt(text, |lead|, token) by {
      assert text[|lead|..|lead| + |token|] == token;
    }
    ReplaceAllSkips(lead, token, token, value);
    ReplaceWhole(token, value);
    assert SubstituteKey(text, text, key, value) == lead + value;
    assert [(key, value)][1..] == [];
  }

  /** With static data only, the output is the preprocessed template with the data substituted. */
  lemma DataOnlyRender(template: string, data: Dict, commands: Commands, fs: FileSystem,
                       children: map<string, Result<string, Error>>)
    requires WellFormed(commands)
    ensures Render(Some(template), None, Some(data), None, None, Options(commands, None), fs, children) ==
              Success(SubstituteAll(Preprocess(template, commands, fs, 0), data))
  {
  }
}
