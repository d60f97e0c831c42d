/**
 * templateman.py, TemplateFromCommands: the directive preprocessor that
 * inlines `include` files (recursively, up to a depth ceiling), strips
 * `comment` spans and recognises, without acting on, `process` spans.
 */
module Directives {
  import opened PyStr
  import opened Regex
  import opened LiteralRe

  /** The prefix and postfix that delimit one kind of directive. */
  datatype Delimiters = Delimiters(prefix: string, postfix: string)

  /** Directive name (`include`, `comment`, `process`, ...) to its delimiters. */
  type Commands = map<string, Delimiters>

  /** Path to file contents; a path is a key exactly when it names a file. */
  type FileSystem = map<string, string>

  /** Past this depth the preprocessor returns its input unchanged. */
  const MAX_DEPTH: nat := 50

  const INCLUDE: string := "include"
  const COMMENT: string := "comment"
  const PROCESS: string := "process"

  /** Delimiters the escaped pattern reads literally, and that cannot match the empty string. */
  predicate ValidDelimiters(d: Delimiters)
  {
    |d.prefix| + |d.postfix| > 0 && Plain(d.prefix) && Plain(d.postfix)
  }

  predicate WellFormed(commands: Commands)
  {
    forall name :: name in commands ==> ValidDelimiters(commands[name])
  }

  /** The directive text `prefix + body + postfix`. */
  function Span(d: Delimiters, body: string): (r: string)
    requires ValidDelimiters(d)
    ensures r != []
  {
    d.prefix + body + d.postfix
  }

  /** The bodies of the directives delimited by `d` in `text`, in order. */
  function Found(text: string, d: Delimiters): seq<string>
    requires ValidDelimiters(d)
  {
    FindAll(text, d.prefix, d.postfix)
  }

  /** The whole preprocessor: includes first, then comments; `process` has no effect. */
  function Preprocess(text: string, commands: Commands, fs: FileSystem, depth: nat): string
    requires WellFormed(commands)
    decreases MAX_DEPTH + 1 - depth, 2, 0
  {
    if depth > MAX_DEPTH then text
    else
      var included :=
        if INCLUDE in commands then IncludeStage(text, Found(text, commands[INCLUDE]), commands, fs, depth)
        else text;
      if COMMENT in commands then CommentStage(included, Found(text, commands[COMMENT]), commands[COMMENT])
      else included
  }

  /** The include loop over the bodies found in the text, first to last. */
  function IncludeStage(text: string, paths: seq<string>, commands: Commands, fs: FileSystem, depth: nat): string
    requires WellFormed(commands) && INCLUDE in commands && depth <= MAX_DEPTH
    decreases MAX_DEPTH + 1 - depth, 1, |paths|
  {
    if paths == [] then text
    else IncludeStage(IncludeStep(text, paths[0], commands, fs, depth), paths[1..], commands, fs, depth)
  }

  /**
   * One include: an existing file is preprocessed one level deeper and put in
   * place of every `prefix + path + postfix`; a missing one changes nothing.
   */
  function IncludeStep(text: string, path: string, commands: Commands, fs: FileSystem, depth: nat): string
    requires WellFormed(commands) && INCLUDE in commands && depth <= MAX_DEPTH
    decreases MAX_DEPTH + 1 - depth, 0, 0
  {
    if path in fs then
      ReplaceAll(text, Span(commands[INCLUDE], path), Preprocess(fs[path], commands, fs, depth + 1))
    else text
  }

  /** The comment loop: every `prefix + body + postfix` of each body found is replaced by `''`. */
  function CommentStage(text: string, bodies: seq<string>, d: Delimiters): string
    requires ValidDelimiters(d)
    decreases |bodies|
  {
    if bodies == [] then text
    else CommentStage(ReplaceAll(text, Span(d, bodies[0]), []), bodies[1..], d)
  }

  /**
   * The source's loop: collect the bodies of every configured directive with
   * the pattern built from the sanitized delimiters, inline the includes,
   * then wipe out the comments.
   */
  method TemplateFromCommands(template: string, commands: Commands, fs: FileSystem, depth: nat) returns (result: string)
    requires WellFormed(commands)
    ensures result == Preprocess(template, commands, fs, depth)
    decreases MAX_DEPTH + 1 - depth
  {
    if depth > MAX_DEPTH {
      return template;
    }

    // Find the template commands in the template.
    var commandsFound: map<string, seq<string>> := map[];
    var pending := commands.Keys;
    while pending != {}
      invariant pending <= commands.Keys
      invariant commandsFound.Keys == commands.Keys - pending
      invariant forall name :: name in commandsFound ==> commandsFound[name] == Found(template, commands[name])
      decreases pending
    {
      var command :| command in pending;
      var d := commands[command];
      var prefixPattern := SanitizeRegex(d.prefix);
      var postfixPattern := SanitizeRegex(d.postfix);
      SanitizedIsLiteral(d.prefix);
      SanitizedIsLiteral(d.postfix);
      var prefix, postfix := CompileLiteral(prefixPattern).value, CompileLiteral(postfixPattern).value;
      commandsFound := commandsFound[command := FindAll(template, prefix, postfix)];
      pending := pending - {command};
    }

    // Include other files.
    result := template;
    if INCLUDE in commandsFound {
      var paths := commandsFound[INCLUDE];
      for i := 0 to |paths|
        invariant IncludeStage(result, paths[i..], commands, fs, depth) == IncludeStage(template, paths, commands, fs, depth)
      {
        var path := paths[i];
        assert paths[i..][1..] == paths[i + 1..];
        if path in fs {
          var included := TemplateFromCommands(fs[path], commands, fs, depth + 1);
          result := ReplaceAll(result, Span(commands[INCLUDE], path), included);
        }
      }
    }

    // Comments are wiped out.
    ghost var included := result;
    if COMMENT in commandsFound {
      var bodies := commandsFound[COMMENT];
      var d := commands[COMMENT];
      for i := 0 to |bodies|
        invariant CommentStage(result, bodies[i..], d) == CommentStage(included, bodies, d)
      {
        assert bodies[i..][1..] == bodies[i + 1..];
        result := ReplaceAll(result, Span(d, bodies[i]), []);
      }
    }

    // Process spans are only reported by the source; they leave the text as it is.
  }

  /** Past the depth ceiling the text comes back unchanged. */
  lemma DepthCeiling(text: string, commands: Commands, fs: FileSystem, depth: nat)
    requires WellFormed(commands) && depth > MAX_DEPTH
    ensures Preprocess(text, commands, fs, depth) == text
  {
  }

  /** Include bodies that name no file leave the text unchanged. */
  lemma {:induction false} MissingIncludesKeepText(text: string, paths: seq<string>, commands: Commands, fs: FileSystem, depth: nat)
    requires WellFormed(commands) && INCLUDE in commands && depth <= MAX_DEPTH
    requires forall i :: 0 <= i < |paths| ==> paths[i] !in fs
    ensures IncludeStage(text, paths, commands, fs, depth) == text
    decreases |paths|
  {
    if paths != [] {
      MissingIncludesKeepText(text, paths[1..], commands, fs, depth);
    }
  }

  /**
   * An include of an existing file cuts the text at every
   * `prefix + path + postfix` and puts the file, preprocessed one level
   * deeper, in each cut; the rest of the text is kept as it was.
   */
  lemma IncludeSplicesFile(text: string, path: string, commands: Commands, fs: FileSystem, depth: nat)
    requires WellFormed(commands) && INCLUDE in commands && depth <= MAX_DEPTH
    requires path in fs
    ensures var pieces := Split(text, Span(commands[INCLUDE], path));
            && Join(pieces, Span(commands[INCLUDE], path)) == text
            && (forall i :: 0 <= i < |pieces| ==> !Contains(pieces[i], Span(commands[INCLUDE], path)))
            && IncludeStep(text, path, commands, fs, depth) == Join(pieces, Preprocess(fs[path], commands, fs, depth + 1))
  {
    ReplaceAllSplices(text, Span(commands[INCLUDE], path), Preprocess(fs[path], commands, fs, depth + 1));
  }

  /**
   * Wiping out one comment body removes every `prefix + body + postfix` and
   * keeps the text between them.
   */
  lemma CommentRemovesSpans(text: string, body: string, d: Delimiters)
    requires ValidDelimiters(d)
    ensures var pieces := Split(text, Span(d, body));
            && Join(pieces, Span(d, body)) == text
            && (forall i :: 0 <= i < |pieces| ==> !Contains(pieces[i], Span(d, body)))
            && CommentStage(text, [body], d) == Join(pieces, [])
  {
    ReplaceAllSplices(text, Span(d, body), []);
  }

  /**
   * Stripping comments never lengthens the text, and a first comment whose
   * span occurs shortens it by at least that span.
   */
  lemma {:induction false} CommentStageShrinks(text: string, bodies: seq<string>, d: Delimiters)
    requires ValidDelimiters(d)
    ensures |CommentStage(text, bodies, d)| <= |text|
    ensures bodies != [] && Contains(text, Span(d, bodies[0])) ==>
              |CommentStage(text, bodies, d)| + |Span(d, bodies[0])| <= |text|
    decreases |bodies|
  {
    if bodies != [] {
      var next := ReplaceAll(text, Span(d, bodies[0]), []);
      RemoveAllShrinks(text, Span(d, bodies[0]));
      CommentStageShrinks(next, bodies[1..], d);
    }
  }

  /**
   * A text with no comment span and no include span naming an existing file
   * comes back unchanged.
   */
  lemma NoDirectivesKeepText(text: string, commands: Commands, fs: FileSystem, depth: nat)
    requires WellFormed(commands)
    requires INCLUDE in commands ==> forall i :: 0 <= i < |Found(text, commands[INCLUDE])| ==> Found(text, commands[INCLUDE])[i] !in fs
    requires COMMENT in commands ==> Found(text, commands[COMMENT]) == []
    ensures Preprocess(text, commands, fs, depth) == text
  {
    if depth <= MAX_DEPTH && INCLUDE in commands {
      MissingIncludesKeepText(text, Found(text, commands[INCLUDE]), commands, fs, depth);
    }
  }

  /**
   * Only `include` and `comment` act on the text: removing any other command,
   * `process` among them, gives the same result at every depth.
   */
  lemma {:induction false} OtherCommandsIgnored(text: string, commands: Commands, fs: FileSystem, depth: nat, name: string)
    requires WellFormed(commands) && name != INCLUDE && name != COMMENT
    ensures Preprocess(text, commands - {name}, fs, depth) == Preprocess(text, commands, fs, depth)
    decreases MAX_DEPTH + 1 - depth, 2, 0
  {
    if depth <= MAX_DEPTH && INCLUDE in commands {
      IncludeStageIgnoresOthers(text, Found(text, commands[INCLUDE]), commands, fs, depth, name);
    }
  }

  lemma {:induction false} IncludeStageIgnoresOthers(text: string, paths: seq<string>, commands: Commands, fs: FileSystem, depth: nat, name: string)
    requires WellFormed(commands) && INCLUDE in commands && depth <= MAX_DEPTH
    requires name != INCLUDE && name != COMMENT
    ensures IncludeStage(text, paths, commands - {name}, fs, depth) == IncludeStage(text, paths, commands, fs, depth)
    decreases MAX_DEPTH + 1 - depth, 1, |paths|
  {
    if paths != [] {
      if paths[0] in fs {
        OtherCommandsIgnored(fs[paths[0]], commands, fs, depth + 1, name);
      }
      IncludeStageIgnoresOthers(IncludeStep(text, paths[0], commands, fs, depth), paths[1..], commands, fs, depth, name);
    }
  }

  /** The `process` command is recognised but never alters the text. */
  lemma ProcessIgnored(text: string, commands: Commands, fs: FileSystem)
    requires WellFormed(commands)
    ensures Preprocess(text, commands - {PROCESS}, fs, 0) == Preprocess(text, commands, fs, 0)
  {
    OtherCommandsIgnored(text, commands, fs, 0, PROCESS);
  }

  /**
   * `path` is an existing file whose include directive, standing alone, is
   * found as one directive: the body has no line break and the postfix does
   * not occur before the body ends, and the directive holds no comment.
   */
  predicate SoleDirective(path: string, commands: Commands, fs: FileSystem)
    requires WellFormed(commands)
  {
    && INCLUDE in commands && path in fs && SingleLine(path)
    && (var d := commands[INCLUDE];
        forall j :: |d.prefix| <= j < |d.prefix| + |path| ==> !OccursAt(Span(d, path), j, d.postfix))
    && (COMMENT in commands ==> Found(Span(commands[INCLUDE], path), commands[COMMENT]) == [])
  }

  /**
   * A text that is a single include directive naming an existing file
   * preprocesses to that file preprocessed one level deeper.
   */
  lemma SoleIncludeResolves(path: string, commands: Commands, fs: FileSystem, depth: nat)
    requires WellFormed(commands) && depth <= MAX_DEPTH && SoleDirective(path, commands, fs)
    ensures Preprocess(Span(commands[INCLUDE], path), commands, fs, depth) == Preprocess(fs[path], commands, fs, depth + 1)
  {
    var d := commands[INCLUDE];
    var text := Span(d, path);
    var expanded := Preprocess(fs[path], commands, fs, depth + 1);
    assert text == d.prefix + path + d.postfix;
    FindAllSole(d.prefix, path, d.postfix);
    ReplaceWhole(text, expanded);
    assert IncludeStep(text, path, commands, fs, depth) == expanded;
    assert IncludeStage(text, [path], commands, fs, depth) == IncludeStage(expanded, [], commands, fs, depth);
  }

  /**
   * Inclusion is transitive: when A is the directive for B and B is the
   * directive for C, preprocessing A yields C, preprocessed two levels deeper.
   */
  lemma IncludeIsTransitive(b: string, c: string, commands: Commands, fs: FileSystem, depth: nat)
    requires WellFormed(commands) && depth < MAX_DEPTH
    requires SoleDirective(b, commands, fs) && SoleDirective(c, commands, fs)
    requires fs[b] == Span(commands[INCLUDE], c)
    ensures Preprocess(Span(commands[INCLUDE], b), commands, fs, depth) == Preprocess(fs[c], commands, fs, depth + 2)
  {
    SoleIncludeResolves(b, commands, fs, depth);
    SoleIncludeResolves(c, commands, fs, depth + 1);
  }

  /**
   * A file that includes itself does not recurse forever: below the ceiling
   * each level puts the directive back in its own place, so the text comes
   * back unchanged at every depth.
   */
  lemma {:induction false} SelfIncludeIsFixedPoint(path: string, commands: Commands, fs: FileSystem, depth: nat)
    requires WellFormed(commands) && SoleDirective(path, commands, fs)
    requires fs[path] == Span(commands[INCLUDE], path)
    ensures Preprocess(fs[path], commands, fs, depth) == fs[path]
    decreases MAX_DEPTH + 1 - depth
  {
    if depth <= MAX_DEPTH {
      SoleIncludeResolves(path, commands, fs, depth);
      SelfIncludeIsFixedPoint(path, commands, fs, depth + 1);
    }
  }
}
