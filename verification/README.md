# TemplateMan template-resolution engine in Dafny

TemplateMan renders text from a declarative specification. A specification
names a template file, an optional wrapper file, static `data`, sub-spec
`specs` and a data source. This project models the engine that turns a
specification and its data rows into output text. It has two parts.

- **The directive preprocessor** (`TemplateFromCommands`). Each configured
  command (`include`, `comment`, `process`) has a prefix and a postfix
  delimiter. The preprocessor collects the bodies of every
  `prefix(.*?)postfix` span with `re.findall`, after escaping both delimiters
  with `SanitizeRegex`. Each `include` body that names an existing file is
  replaced by that file, itself preprocessed one level deeper. Each
  `comment` span is erased. `process` spans are only reported. Recursion
  stops once the depth passes 50.
- **The rendering pipeline** (`TemplateFromSpec`). It runs four stages in
  order on the preprocessed template:
  1. Row expansion, one copy per row. The `NoDataSource` sentinel passes the
     template through.
  2. The wrapper. If the wrapper lacks `%(template)s`, the stage raises
     `ConfigurationError`.
  3. The merge of the caller's `data` into the spec's `data`, followed by
     static-data substitution.
  4. Sub-spec slot substitution.

Modules:

- `Wrappers`: `Option` and `Result`.
- `PyStr`: Python's `in` and `str.replace`, with a reference
  characterisation of `str.replace` by split and join.
- `Regex`: `SanitizeRegex`, as the loop the source runs, proved equal to a
  per-character escaping map.
- `LiteralRe`: reading a sanitized delimiter back as literal text, and
  `re.findall` for `prefix(.*?)postfix`.
- `Directives`: the preprocessor. `Preprocess` is a specification function
  and `TemplateFromCommands` is the imperative method proved equal to it.
- `Dicts`: Python dicts as insertion-ordered key/value lists, and `update`.
- `Render`: the four stages. Row expansion, data substitution and slot
  substitution are methods proved equal to functions; the wrapper step is a
  function with a full contract. The `SpecData` class holds the `data` field
  that rendering merges in place. `TemplateFromSpec` runs the whole
  pipeline.

How the source's entities are represented:

- The file system is a map from path to contents. A path in the map is a
  file that exists.
- Data rows are `Option<seq<Row>>`. `None` is the `NoDataSource` sentinel.
- A child specification's rendered output is given as a map from spec path
  to `Result`.

Three behaviours of the program are worth stating outright, since the
model follows them:

- The comment bodies are collected from the text *before* includes are
  expanded (templateman.py:106-111). An included file's own comments are
  removed by the recursive call on that file, since it uses the same
  commands.
- `process` spans are only logged (templateman.py:145-147). The text comes
  back as if the command were not configured, and no error is raised.
- The wrapper step replaces *every* `%(template)s` in the wrapper
  (templateman.py:207), not only one.

## Model

| member | source | states |
|---|---|---|
| PyStr.ReplaceAll | templateman.py:129 | Python's `text.replace(needle, rep)` for a non-empty needle: leftmost occurrences first, without overlap; characterised, cut for cut, by `PyStr.ReplaceAllSplices` and `PyStr.JoinSplitIsReplace` |
| PyStr.Split | templateman.py:129 | reference definition, not run by the source: Python's `text.split(needle)`, always at least one piece, used to describe the `replace` calls at lines 129, 142, 192, 207 and 229 |
| PyStr.Join | templateman.py:129 | reference definition, not run by the source: Python's `sep.join(pieces)`, the partner of `PyStr.Split` in the description of `replace` |
| PyStr.ReplaceAllSplices | templateman.py:129 | `text.replace(n, r)` cuts the text at the leftmost non-overlapping occurrences of `n`: the pieces glued back with `n` give the text, no piece holds `n`, no piece followed by `n` holds an earlier start of `n`, and gluing the pieces with `r` gives the result |
| PyStr.JoinSplitIsReplace | templateman.py:129 | reference description of the `replace` calls at lines 129, 142, 192, 207 and 229: `str.replace` equals `rep.join(text.split(needle))` |
| PyStr.ReplaceAllAbsent | templateman.py:228-229 | replacing a needle that does not occur leaves the text unchanged |
| PyStr.ReplaceWithSelf | templateman.py:126-129 | replacing a needle with itself leaves the text unchanged |
| PyStr.SplitPiecesFree | templateman.py:129 | reference description of `replace`: no piece of a split holds the separator |
| PyStr.SplitLeftmost | templateman.py:129 | reference description of `replace`: each cut is at the leftmost occurrence, since a piece followed by the separator holds no earlier start of it |
| PyStr.RemoveAllShrinks | templateman.py:142 | replacing by `''` never lengthens the text, and shortens it by at least the needle's length when the needle occurs |
| PyStr.ReplaceWhole | templateman.py:129 | a text that is exactly the needle becomes the replacement |
| PyStr.ReplaceAllSkips | templateman.py:192 | a lead-in without the needle's first character is copied unchanged in front of the replaced rest |
| Regex.SanitizeRegex | util/regex.py:7-11 | the loop of `replace` calls over `()[]` returns the per-character escape `c -> '\' + c` for `c` in `()[]`, and `c -> c` otherwise |
| Regex.EscapeOneMore | util/regex.py:8-9 | one loop step, escaping one more special character, extends the per-character map by that character |
| Regex.EscapedPlainText | util/regex.py:5-11 | text without `(`, `)`, `[`, `]` comes back unchanged |
| Regex.EscapedLength | util/regex.py:8-9 | the output length is the input length plus the number of `(`, `)`, `[` and `]` characters |
| Regex.UnescapeEscaped | util/regex.py:8-9 | a left-to-right unescape that turns `'\' + c` into `c` recovers the input |
| Regex.EscapedInjective | util/regex.py:7-11 | two texts with the same escaping are equal |
| LiteralRe.MetacharsPassThrough | util/regex.py:5 | `\`, `.`, `^`, `$`, `*`, `+`, `?`, `{`, `}` and `|` pass through unescaped, so a non-empty delimiter made of them is not read as literal text |
| LiteralRe.CompileLiteral | templateman.py:108 | a pattern that reads as literal text is the escaping of a plain text |
| LiteralRe.SanitizedIsLiteral | templateman.py:108 | a sanitized delimiter reads back as itself exactly when it is plain; otherwise it keeps regular-expression meaning |
| LiteralRe.LazyBodyEnd | templateman.py:108-109 | `(.*?)` stops at the first postfix occurrence reached through newline-free text, and fails only when there is none |
| LiteralRe.FindAllFrom | templateman.py:109 | `re.findall` from a position: at each position a match (prefix, then the lazy body, then the postfix) yields its body and the scan resumes after the postfix; otherwise the scan moves on by one character |
| LiteralRe.FindAllFromSkip | templateman.py:109 | where no match starts, the scan moves on by one character |
| LiteralRe.FindAllFromHit | templateman.py:109 | where a match starts, its body comes first and the scan resumes just after its postfix |
| LiteralRe.FindAllFromSound | templateman.py:109 | every body returned is newline-free and `prefix + body + postfix` occurs in the text |
| LiteralRe.FindAllFromEmpty | templateman.py:109 | the scan returns nothing exactly when no match starts at or after the position |
| LiteralRe.FindAllFromSkipTo | templateman.py:109 | positions where no match starts are skipped without output |
| LiteralRe.FindAllFromLeftmost | templateman.py:109 | the result starts with the body of the leftmost match and continues from just after that match's postfix, so matches never overlap |
| LiteralRe.FindAll | templateman.py:109 | `re.findall(prefix + '(.*?)' + postfix, text)` for literal delimiters: the scan from position 0 |
| LiteralRe.FindAllSole | templateman.py:106-111 | a text that is one directive span, with no earlier postfix inside the body, yields exactly that body |
| Directives.Preprocess | templateman.py:100-149 | the preprocessor's result: the text unchanged past depth 50; otherwise the include stage over the include bodies, then the comment stage over the comment bodies, both found in the original text |
| Directives.IncludeStep | templateman.py:118-132 | one include: an existing file, preprocessed at depth + 1, replaces every `prefix + path + postfix`; a missing one changes nothing |
| Directives.CommentStage | templateman.py:136-142 | each comment body in turn has every `prefix + body + postfix` replaced by `''` |
| Directives.TemplateFromCommands | templateman.py:100-149 | the imperative preprocessor returns `Preprocess` of its inputs: scanning, includes at depth + 1, comment removal, depth ceiling |
| Directives.DepthCeiling | templateman.py:101-103 | once the depth passes 50 the text comes back unchanged |
| Directives.MissingIncludesKeepText | templateman.py:115-132 | include bodies that name no file leave the text unchanged |
| Directives.IncludeSplicesFile | templateman.py:118-129 | an existing file's include replaces each leftmost non-overlapping `prefix + path + postfix` (the cuts of `PyStr.Split`) with the file preprocessed one level deeper, and nothing else changes |
| Directives.CommentRemovesSpans | templateman.py:136-142 | a comment span `prefix + body + postfix` is cut out at each leftmost non-overlapping occurrence (the cuts of `PyStr.Split`) and the text around it is kept |
| Directives.CommentStageShrinks | templateman.py:136-142 | comment removal never lengthens the text, and shortens it when the first span occurs |
| Directives.NoDirectivesKeepText | templateman.py:105-149 | text with no comment span and no include of an existing file comes back unchanged |
| Directives.OtherCommandsIgnored | templateman.py:106-149 | commands other than `include` and `comment` have no effect on the result |
| Directives.ProcessIgnored | templateman.py:145-147 | `process` spans never alter the text |
| Directives.SoleIncludeResolves | templateman.py:115-129 | a text that is one include of an existing file becomes that file, preprocessed one level deeper |
| Directives.IncludeIsTransitive | templateman.py:123 | if A is the include directive of B and B's contents are the include directive of C, A preprocesses to C preprocessed two levels deeper, with or without a `comment` command |
| Directives.SelfIncludeIsFixedPoint | templateman.py:100-129 | a file that includes itself terminates and comes back unchanged at every depth, with or without a `comment` command |
| Dicts.Lookup | templateman.py:214 | reference definition of `d.get(k)`, used to state what `update` at line 214 leaves in the dict: a value exactly when the key is present, and then the value paired with the key |
| Dicts.Set | templateman.py:214 | `d[k] = v` keeps every existing key in its position and appends a new key at the end |
| Dicts.SetLookup | templateman.py:214 | after `d[k] = v`, `k` maps to `v` and every other key keeps its value |
| Dicts.SetKeepsDict | templateman.py:214 | setting a key keeps the keys unique |
| Dicts.Update | templateman.py:214 | `d.update(e)`: the pairs of `e` set into `d` in order; characterised by `Dicts.UpdateOverrides` and `Dicts.UpdateKeepsOrder` |
| Dicts.UpdateOverrides | templateman.py:214 | after `d.update(e)`, a key of `e` has `e`'s value and any other key keeps `d`'s |
| Dicts.UpdateKeepsOrder | templateman.py:214 | `d.update(e)` keeps `d`'s keys in place, keeps keys unique, and has exactly the keys of `d` and `e` |
| Render.SubstituteKey | templateman.py:191-192 | `if key_str in guard: text = text.replace(key_str, value)`, with the guard text given separately from the text replaced |
| Render.ExpandRows | templateman.py:180-195 | the nested row and key loops compute the row expansion: the sentinel passes the template through, and rows give concatenated per-row copies |
| Render.SentinelIsNotEmptyRows | templateman.py:180-195 | the sentinel yields the template and an empty row list yields `''`; they differ whenever the template is not empty |
| Render.ExpandedRowsAppend | templateman.py:185-195 | expanding `r1 + r2` is expanding `r1` followed by expanding `r2` |
| Render.OneKeyRow | templateman.py:189-192 | a one-key row whose placeholder is in the template cuts the template at each leftmost non-overlapping placeholder and glues it back with the value; otherwise it yields the template |
| Render.RowGuardIsTemplate | templateman.py:191 | a row tests each placeholder against the original template, so a placeholder brought in by an earlier value stays; static data (line 228) tests the current output and replaces it |
| Render.UnrelatedRowIsVerbatim | templateman.py:189-192 | a row none of whose placeholders is in the template contributes the template verbatim |
| Render.Wrap | templateman.py:200-207 | a configuration error exactly when the wrapper lacks `%(template)s`; otherwise the wrapper with every token replaced by the output and nothing else changed |
| Render.MergedData | templateman.py:211-217 | the spec's data after the merge: `update` with the caller's data, or a copy of it when the spec has none; characterised by `Render.MergeOverrides` |
| Render.MergeOverrides | templateman.py:211-217 | after the merge, a key of the caller's data has the caller's value, and any other key keeps the spec's value |
| Render.SpecData.MergeOptionData | templateman.py:211-217 | the spec's data is updated in place with the caller's data, or becomes a copy of it |
| Render.SubstituteData | templateman.py:223-229 | the loop over `data` substitutes key after key, each checked against the current output |
| Render.AbsentKeysKeepText | templateman.py:225-229 | keys whose placeholder is absent leave the output unchanged |
| Render.SubstituteOneKey | templateman.py:227-229 | one key replaces each leftmost non-overlapping `%(key)s` with its value and leaves the text between placeholders unchanged |
| Render.SubstituteAllAppend | templateman.py:225-229 | substituting `d1 + d2` is substituting `d1` and then `d2` |
| Render.TrailingPlaceholder | templateman.py:227-229 | a text whose only `%` starts a trailing placeholder gets the value in its place |
| Render.SubstituteSpecs | templateman.py:235-246 | the loop over `specs` renders each child and substitutes its slot; a failing child aborts |
| Render.ResolveChildren | templateman.py:239-241 | every child renders, in slot order, or else the stage fails with the error of the first failing child in `specs` order |
| Render.SlotsAreChildData | templateman.py:239-246 | slot substitution is static-data substitution with the children's outputs as values |
| Render.AbsentSlotsDiscardChildren | templateman.py:239-246 | children are rendered even when their slot is absent; such slots leave the output unchanged, but a child's failure still aborts |
| Render.Render | templateman.py:152-248 | the rendered output, stage by stage: preprocess, rows, wrapper, merged data, slots |
| Render.TemplateFromSpec | templateman.py:152-248 | the pipeline returns `Render` of its inputs, and the spec's data is merged with the caller's unless the wrapper check aborted first |
| Render.SentinelRendersTemplate | templateman.py:176-181 | with no data source, wrapper, data or specs, the output is the preprocessed template; with an empty row list, it is `''` |
| Render.MissingTokenAborts | templateman.py:203-204 | a wrapper without the token aborts rendering with `ConfigurationError`, whatever the other inputs |
| Render.HelloUnsubstituted | templateman.py:180-181 | `Hello %(name)s` with no data source and no data renders as itself |
| Render.HelloWorld | templateman.py:223-229 | `Hello %(name)s` with `data: {name: v}` renders as `Hello v` |
| Render.DataOnlyRender | templateman.py:176-229 | with static data only, the output is the preprocessed template with the data substituted |

## Left out

- Configuration and command-line handling are not modelled: YAML loading
  (`GetSpecData`), `ProcessSpecPath`, `ProcessOptions`, `Usage` and `Main`.
  They are input parsing, printing and process exit.
- File I/O is replaced by inputs. Template and wrapper contents are given as
  strings. Include targets come from a path-to-contents map. Writing the
  output file is not modelled.
- The `log` calls are dropped. These include the depth-exceeded warning,
  the missing-include warning and the `process` error message.
- The recursion through `TemplateFromSpecPath` is not modelled. It reloads
  a YAML spec and has no depth bound. Each child's output (or failure) is
  given as a map from spec path to result. A path missing from the map is
  the `MissingSpec` failure.
- `GetData`, the query layer (util/query.py) and the MySQL data source
  (util/mysql_datasource.py) are not modelled. The rows, or the
  `NoDataSource` sentinel, are an input.
- `ProcessSpec` and its "outer filter" multi-output branch are not
  modelled. They depend on the query backend and on file writes.
- `str(value)` coercion is not modelled. Every value is already a string.
- General regular-expression semantics are not modelled. Each delimiter
  must be plain: no metacharacter other than `()[]`. The prefix and postfix
  together must be non-empty. Under those conditions the sanitized pattern
  is literal (`LiteralRe.SanitizedIsLiteral`). Other delimiters and the
  empty pattern are outside the model.
- Python 2 dict iteration follows hash order. The model iterates rows,
  `data`, `specs` and the commands' results in insertion order. The
  commands are scanned into a map, so their order does not matter.
- A spec whose `data` key is present but null is not modelled.
  `spec_data['data'].update` would fail on it; here an absent key and a null
  value are both `None`.
- Exceptions other than `ConfigurationError` are not modelled, such as an
  unreadable template or wrapper file.
