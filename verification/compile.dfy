/**
 * The decision part of code execution: the language tag is sanitised, the
 * sanitised tag selects a plan (interpret, compile then run, the Java
 * two-step with its class name, or a fixed result), and the plan's commands
 * and the outcomes of running them give the `CompileResult`. Running a
 * command is a parameter: the model does not execute anything.
 */
module Compile {

  import opened Wrappers
  import opened JsText
  import opened Schema

  predicate IsLowerAZ(c: char) {
    'a' <= c <= 'z'
  }

  /** `toLowerCase()` of one character, restricted to what survives `[^a-z]` removal. */
  function LowerSurvivor(c: char): (r: string)
    ensures |r| <= 1 && forall k :: 0 <= k < |r| ==> IsLowerAZ(r[k])
    ensures IsLowerAZ(c) ==> r == [c]
    ensures 'A' <= c <= 'Z' ==> r == [(c as int + 32) as char]
    ensures c == '\U{130}' ==> r == "i"
    ensures c == '\U{212A}' ==> r == "k"
    ensures r == [] <==> !IsLowerAZ(c) && !('A' <= c <= 'Z') && c != '\U{130}' && c != '\U{212A}'
  {
    if 'a' <= c <= 'z' then [c]
    else if 'A' <= c <= 'Z' then [(c as int + 32) as char]
    else if c == '\U{130}' then "i"   // LATIN CAPITAL LETTER I WITH DOT ABOVE lowercases to i + U+0307
    else if c == '\U{212A}' then "k"  // KELVIN SIGN lowercases to k
    else []
  }

  /** `language.toLowerCase().replace(/[^a-z]/g, '')` */
  function Sanitize(language: string): (r: string)
    ensures |r| <= |language|
    ensures forall k :: 0 <= k < |r| ==> IsLowerAZ(r[k])
  {
    if language == [] then [] else LowerSurvivor(language[0]) + Sanitize(language[1..])
  }

  /** Sanitising works character by character: it distributes over concatenation. */
  lemma {:induction false} SanitizeConcat(a: string, b: string)
    ensures Sanitize(a + b) == Sanitize(a) + Sanitize(b)
  {
    if a == [] {
      assert a + b == b;
    } else {
      assert (a + b)[0] == a[0] && (a + b)[1..] == a[1..] + b;
      SanitizeConcat(a[1..], b);
    }
  }

  /** A tag made only of `a`-`z` is its own sanitisation. */
  lemma {:induction false} SanitizeKeepsLowercase(s: string)
    requires forall k :: 0 <= k < |s| ==> IsLowerAZ(s[k])
    ensures Sanitize(s) == s
  {
    if s != [] {
      SanitizeKeepsLowercase(s[1..]);
    }
  }

  /** Sanitising twice is sanitising once. */
  lemma SanitizeIdempotent(s: string)
    ensures Sanitize(Sanitize(s)) == Sanitize(s)
  {
    SanitizeKeepsLowercase(Sanitize(s));
  }

  /** "C++" and "C#" lose their symbols and are both handled as C. */
  lemma CPlusPlusAndCSharpAreC()
    ensures Sanitize("C++") == "c" && Sanitize("C#") == "c"
    ensures Sanitize("C++") != "cpp" && Sanitize("C#") != "csharp"
  {
  }

  // ---------------------------------------------------------------------------
  // Java class name: public\s+class\s+([A-Za-z0-9_]+)
  // ---------------------------------------------------------------------------

  predicate IsIdentChar(c: char) {
    ('A' <= c <= 'Z') || ('a' <= c <= 'z') || ('0' <= c <= '9') || c == '_'
  }

  /** Length of the longest run of white space starting at `from` (SpaceRunIsMaximal). */
  function SpaceRun(s: string, from: nat): (n: nat)
    requires from <= |s|
    ensures from + n <= |s|
    decreases |s| - from
  {
    if from < |s| && IsSpace(s[from]) then 1 + SpaceRun(s, from + 1) else 0
  }

  /** Length of the longest run of identifier characters starting at `from` (IdentRunIsMaximal). */
  function IdentRun(s: string, from: nat): (n: nat)
    requires from <= |s|
    ensures from + n <= |s|
    decreases |s| - from
  {
    if from < |s| && IsIdentChar(s[from]) then 1 + IdentRun(s, from + 1) else 0
  }

  /** `s[from..from + w]` is all white space. */
  predicate SpacesBetween(s: string, from: nat, w: nat) {
    from + w <= |s| && forall k :: from <= k < from + w ==> IsSpace(s[k])
  }

  /** `s[from..from + w]` is all identifier characters. */
  predicate IdentBetween(s: string, from: nat, w: nat) {
    from + w <= |s| && forall k :: from <= k < from + w ==> IsIdentChar(s[k])
  }

  /** The white-space run is white space and is followed by the end or by something else. */
  lemma {:induction false} SpaceRunIsMaximal(s: string, from: nat)
    requires from <= |s|
    ensures SpacesBetween(s, from, SpaceRun(s, from))
    ensures from + SpaceRun(s, from) == |s| || !IsSpace(s[from + SpaceRun(s, from)])
    decreases |s| - from
  {
    if from < |s| && IsSpace(s[from]) {
      SpaceRunIsMaximal(s, from + 1);
    }
  }

  lemma {:induction false} IdentRunIsMaximal(s: string, from: nat)
    requires from <= |s|
    ensures IdentBetween(s, from, IdentRun(s, from))
    ensures from + IdentRun(s, from) == |s| || !IsIdentChar(s[from + IdentRun(s, from)])
    decreases |s| - from
  {
    if from < |s| && IsIdentChar(s[from]) {
      IdentRunIsMaximal(s, from + 1);
    }
  }

  /** A white-space run that cannot be extended is the one `SpaceRun` measures. */
  lemma {:induction false} SpaceRunExact(s: string, from: nat, w: nat)
    requires SpacesBetween(s, from, w) && (from + w == |s| || !IsSpace(s[from + w]))
    ensures SpaceRun(s, from) == w
    decreases w
  {
    if w > 0 {
      SpaceRunExact(s, from + 1, w - 1);
    }
  }

  lemma {:induction false} IdentRunExact(s: string, from: nat, w: nat)
    requires IdentBetween(s, from, w) && (from + w == |s| || !IsIdentChar(s[from + w]))
    ensures IdentRun(s, from) == w
    decreases w
  {
    if w > 0 {
      IdentRunExact(s, from + 1, w - 1);
    }
  }

  predicate HasAt(s: string, at: nat, word: string) {
    at + |word| <= |s| && s[at..at + |word|] == word
  }

  lemma HasAtFirst(s: string, at: nat, word: string)
    requires HasAt(s, at, word) && |word| > 0
    ensures at < |s| && s[at] == word[0]
  {
    assert s[at..at + |word|][0] == s[at];
  }

  /** The match attempt at index `i`: each `+` takes the longest run it can, as the regular expression does. */
  function MatchAt(s: string, i: nat): Option<string>
    requires i <= |s|
  {
    if HasAt(s, i, "public") then AfterPublic(s, i + 6) else None
  }

  /** The rest of the attempt once `public` has matched, up to `p`: white space, then `class`. */
  function AfterPublic(s: string, p: nat): Option<string>
    requires p <= |s|
  {
    var n1 := SpaceRun(s, p);
    if n1 > 0 && HasAt(s, p + n1, "class") then AfterClass(s, p + n1 + 5) else None
  }

  /** The rest of the attempt once `class` has matched, up to `q`: white space, then the captured identifier. */
  function AfterClass(s: string, q: nat): Option<string>
    requires q <= |s|
  {
    var n2 := SpaceRun(s, q);
    var n3 := IdentRun(s, q + n2);
    if n2 > 0 && n3 > 0 then Some(s[q + n2..q + n2 + n3]) else None
  }

  /**
   * What the expression captures at `i`, stated declaratively and layer by
   * layer: `public`, some white space, `class`, some white space, then
   * `name`, an identifier not followed by another identifier character (the
   * greedy group).
   */
  ghost predicate Captures(s: string, i: nat, name: string) {
    HasAt(s, i, "public") && PublicTail(s, i + 6, name)
  }

  /** From `p`: some white space, `class`, then a `ClassTail` capturing `name`. */
  ghost predicate PublicTail(s: string, p: nat, name: string) {
    exists w: nat :: w > 0 && SpacesBetween(s, p, w) && HasAt(s, p + w, "class") && ClassTail(s, p + w + 5, name)
  }

  /** From `q`: some white space, then `name` as a whole identifier. */
  ghost predicate ClassTail(s: string, q: nat, name: string) {
    exists w: nat :: w > 0 && SpacesBetween(s, q, w) && NameAt(s, q + w, name)
  }

  /** `name` is a non-empty identifier at `d` that the next character does not continue. */
  ghost predicate NameAt(s: string, d: nat, name: string) {
    && |name| > 0 && HasAt(s, d, name)
    && (forall k :: 0 <= k < |name| ==> IsIdentChar(name[k]))
    && (d + |name| == |s| || !IsIdentChar(s[d + |name|]))
  }

  /** The computed attempt succeeds with `name` exactly when the expression captures `name` at `i`. */
  lemma MatchAtIsCapture(s: string, i: nat, name: string)
    requires i <= |s|
    ensures MatchAt(s, i) == Some(name) <==> Captures(s, i, name)
  {
    if HasAt(s, i, "public") {
      AfterPublicIsTail(s, i + 6, name);
    }
  }

  /** The attempt after `public` succeeds with `name` exactly when a `PublicTail` captures it. */
  lemma AfterPublicIsTail(s: string, p: nat, name: string)
    requires p <= |s|
    ensures AfterPublic(s, p) == Some(name) <==> PublicTail(s, p, name)
  {
    if AfterPublic(s, p) == Some(name) {
      AfterPublicGivesTail(s, p, name);
    }
    if PublicTail(s, p, name) {
      TailGivesAfterPublic(s, p, name);
    }
  }

  lemma TailGivesAfterPublic(s: string, p: nat, name: string)
    requires p <= |s| && PublicTail(s, p, name)
    ensures AfterPublic(s, p) == Some(name)
  {
    var w: nat :| w > 0 && SpacesBetween(s, p, w) && HasAt(s, p + w, "class") && ClassTail(s, p + w + 5, name);
    AfterClassIsTail(s, p + w + 5, name);
    AfterPublicIs(s, p, w, name);
  }

  lemma AfterPublicGivesTail(s: string, p: nat, name: string)
    requires p <= |s| && AfterPublic(s, p) == Some(name)
    ensures PublicTail(s, p, name)
  {
    var w := SpaceRun(s, p);
    SpaceRunIsMaximal(s, p);
    assert w > 0 && HasAt(s, p + w, "class");
    AfterClassIsTail(s, p + w + 5, name);
  }

  /** The attempt after `class` succeeds with `name` exactly when a `ClassTail` captures it. */
  lemma AfterClassIsTail(s: string, q: nat, name: string)
    requires q <= |s|
    ensures AfterClass(s, q) == Some(name) <==> ClassTail(s, q, name)
  {
    if AfterClass(s, q) == Some(name) {
      SpaceRunIsMaximal(s, q);
      AfterClassCaptures(s, q, name);
    }
    if ClassTail(s, q, name) {
      var w: nat :| w > 0 && SpacesBetween(s, q, w) && NameAt(s, q + w, name);
      AfterClassIs(s, q, w, name);
    }
  }

  lemma AfterClassCaptures(s: string, q: nat, name: string)
    requires q <= |s| && AfterClass(s, q) == Some(name)
    ensures SpaceRun(s, q) > 0 && NameAt(s, q + SpaceRun(s, q), name)
  {
    var d := q + SpaceRun(s, q);
    var n3 := IdentRun(s, d);
    IdentRunIsMaximal(s, d);
    assert name == s[d..d + n3];
    forall k | 0 <= k < |name| ensures IsIdentChar(name[k]) {
      assert name[k] == s[d + k];
    }
  }

  lemma AfterClassIs(s: string, q: nat, w: nat, name: string)
    requires w > 0 && SpacesBetween(s, q, w) && NameAt(s, q + w, name)
    ensures AfterClass(s, q) == Some(name)
  {
    var d := q + w;
    HasAtFirst(s, d, name);
    SpaceRunExact(s, q, w);
    forall k | d <= k < d + |name| ensures IsIdentChar(s[k]) {
      assert s[k] == s[d..d + |name|][k - d];
    }
    IdentRunExact(s, d, |name|);
  }

  lemma AfterPublicIs(s: string, p: nat, w: nat, name: string)
    requires w > 0 && SpacesBetween(s, p, w) && HasAt(s, p + w, "class")
    requires AfterClass(s, p + w + 5) == Some(name)
    ensures AfterPublic(s, p) == Some(name)
  {
    HasAtFirst(s, p + w, "class");
    SpaceRunExact(s, p, w);
  }

  /** The first index from `from` on where an attempt succeeds, or `|s| + 1` when none does. */
  function FirstMatch(s: string, from: nat): (i: nat)
    requires from <= |s|
    ensures from <= i <= |s| + 1
    ensures forall j :: from <= j < i && j <= |s| ==> MatchAt(s, j).None?
    ensures i <= |s| ==> MatchAt(s, i).Some?
    decreases |s| - from
  {
    if MatchAt(s, from).Some? then from
    else if from == |s| then |s| + 1
    else FirstMatch(s, from + 1)
  }

  /** `code.match(...)[1]`: the group of the leftmost successful attempt. */
  function ClassName(code: string): (r: Option<string>)
    ensures r.None? <==> forall i: nat :: i <= |code| ==> MatchAt(code, i).None?
  {
    var i := FirstMatch(code, 0);
    if i <= |code| then MatchAt(code, i) else None
  }

  /**
   * The class name is the group the leftmost match captures, and there is
   * none exactly when the expression matches nowhere.
   */
  lemma ClassNameIsLeftmostCapture(code: string)
    ensures ClassName(code).Some? ==>
              exists i: nat :: i <= |code| && Captures(code, i, ClassName(code).value)
                && forall j: nat, other :: j < i ==> !Captures(code, j, other)
    ensures ClassName(code).None? ==> forall i: nat, name :: i <= |code| ==> !Captures(code, i, name)
  {
    var i := FirstMatch(code, 0);
    if i <= |code| {
      MatchAtIsCapture(code, i, MatchAt(code, i).value);
      forall j: nat, other | j < i ensures !Captures(code, j, other) {
        MatchAtIsCapture(code, j, other);
      }
    } else {
      forall i: nat, name | i <= |code| ensures !Captures(code, i, name) {
        MatchAtIsCapture(code, i, name);
      }
    }
  }

  // ---------------------------------------------------------------------------
  // Dispatch
  // ---------------------------------------------------------------------------

  const JavaNoClassError := "Could not find a public class name. Java code must contain a public class."
  const HtmlNotice := "HTML code cannot be executed directly. Use a browser to view the output."
  const CssNotice := "CSS code cannot be executed directly. Use with HTML in a browser."

  function UnsupportedError(language: string): string {
    "Unsupported language: " + language + ". Supported languages are JavaScript, Python, Java, C++, C, C#, HTML, and CSS."
  }

  /** What the `switch` decides for a sanitised tag. */
  datatype Plan =
    | Interpret(extension: string, interpreter: string)
    | Build(extension: string, compiler: string, viaMono: bool)
    | JavaBuild(className: string)
    | Fixed(result: CompileResult)

  function PlanFor(code: string, language: string): (p: Plan)
    ensures Sanitize(language) == "javascript" ==> p == Interpret(".js", "node")
    ensures Sanitize(language) == "python" ==> p == Interpret(".py", "python3")
    ensures Sanitize(language) == "cpp" ==> p == Build(".cpp", "g++", false)
    ensures Sanitize(language) == "c" ==> p == Build(".c", "gcc", false)
    ensures Sanitize(language) == "csharp" ==> p == Build(".cs", "csc", true)
    ensures Sanitize(language) == "java" ==>
              p == match ClassName(code) case None => Fixed(CompileResult(false, None, Some(JavaNoClassError)))
                                         case Some(n) => JavaBuild(n)
    ensures Sanitize(language) == "html" ==> p == Fixed(CompileResult(true, Some(HtmlNotice), None))
    ensures Sanitize(language) == "css" ==> p == Fixed(CompileResult(true, Some(CssNotice), None))
    ensures Sanitize(language) !in {"javascript", "python", "java", "cpp", "c", "csharp", "html", "css"} ==>
              p == Fixed(CompileResult(false, None, Some(UnsupportedError(language))))
  {
    match Sanitize(language)
    case "javascript" => Interpret(".js", "node")
    case "python" => Interpret(".py", "python3")
    case "java" =>
      (match ClassName(code)
       case None => Fixed(CompileResult(false, None, Some(JavaNoClassError)))
       case Some(n) => JavaBuild(n))
    case "cpp" => Build(".cpp", "g++", false)
    case "c" => Build(".c", "gcc", false)
    case "csharp" => Build(".cs", "csc", true)
    case "html" => Fixed(CompileResult(true, Some(HtmlNotice), None))
    case "css" => Fixed(CompileResult(true, Some(CssNotice), None))
    case _ => Fixed(CompileResult(false, None, Some(UnsupportedError(language))))
  }

  /** The extension of the temporary source file a plan writes. */
  function Extension(p: Plan): string
    requires !p.Fixed?
  {
    match p
    case Interpret(ext, _) => ext
    case Build(ext, _, _) => ext
    case JavaBuild(_) => ".java"
  }

  /** `filepath.substring(0, filepath.lastIndexOf('/'))` */
  function Directory(path: string): (dir: string)
    ensures '/' !in path ==> dir == []
    ensures '/' in path ==>
              |dir| < |path| && dir == path[..|dir|] && path[|dir|] == '/'
              && forall k :: |dir| < k < |path| ==> path[k] != '/'
  {
    if path == [] then []
    else if path[|path| - 1] == '/' then path[..|path| - 1]
    else
      var init := path[..|path| - 1];
      assert path == init + [path[|path| - 1]];
      Directory(init)
  }

  /** The shell commands a plan runs, in order, for a temporary file at `path`. */
  function Commands(p: Plan, path: string): (cmds: seq<string>)
    ensures p.Fixed? <==> cmds == []
    ensures p.Interpret? ==> cmds == [p.interpreter + " " + path]
    ensures p.Build? && !p.viaMono ==> cmds == [p.compiler + " " + path + " -o " + path + ".out", path + ".out"]
    ensures p.Build? && p.viaMono ==> cmds == ["csc " + path + " -out:" + path + ".exe", "mono " + path + ".exe"]
    ensures p.JavaBuild? ==> cmds == ["javac " + path, "cd " + Directory(path) + " && java " + p.className]
  {
    match p
    case Interpret(_, interpreter) => [interpreter + " " + path]
    case Build(_, compiler, viaMono) =>
      if viaMono then ["csc " + path + " -out:" + path + ".exe", "mono " + path + ".exe"]
      else [compiler + " " + path + " -o " + path + ".out", path + ".out"]
    case JavaBuild(className) => ["javac " + path, "cd " + Directory(path) + " && java " + className]
    case Fixed(_) => []
  }

  /** The commands each supported language runs, by its sanitised tag. */
  lemma CommandsByLanguage(code: string, language: string, path: string)
    ensures Sanitize(language) == "javascript" ==> Commands(PlanFor(code, language), path) == ["node " + path]
    ensures Sanitize(language) == "python" ==> Commands(PlanFor(code, language), path) == ["python3 " + path]
    ensures Sanitize(language) == "cpp" ==>
              Commands(PlanFor(code, language), path) == ["g++ " + path + " -o " + path + ".out", path + ".out"]
    ensures Sanitize(language) == "c" ==>
              Commands(PlanFor(code, language), path) == ["gcc " + path + " -o " + path + ".out", path + ".out"]
    ensures Sanitize(language) == "csharp" ==>
              Commands(PlanFor(code, language), path) == ["csc " + path + " -out:" + path + ".exe", "mono " + path + ".exe"]
    ensures Sanitize(language) == "java" && ClassName(code).Some? ==>
              Commands(PlanFor(code, language), path) == ["javac " + path, "cd " + Directory(path) + " && java " + ClassName(code).value]
  {
    assert "node" + " " == "node " && "python3" + " " == "python3 ";
    assert "g++" + " " == "g++ " && "gcc" + " " == "gcc ";
  }

  /** What `executeCommand` settles with: stdout, or stderr / the error's message on failure. */
  datatype Exec = Ok(stdout: string) | Failed(error: string)

  /** Runs the commands in order until one fails; success carries the last command's stdout. */
  function RunAll(cmds: seq<string>, exec: string -> Exec): (r: CompileResult)
    requires cmds != []
    ensures r.success <==> forall k :: 0 <= k < |cmds| ==> exec(cmds[k]).Ok?
    ensures r.success ==> r.output == Some(exec(cmds[|cmds| - 1]).stdout) && r.error.None?
    ensures !r.success ==> r.output.None? && exists k :: 0 <= k < |cmds| && exec(cmds[k]).Failed? && r.error == Some(exec(cmds[k]).error)
                                                         && forall j :: 0 <= j < k ==> exec(cmds[j]).Ok?
  {
    match exec(cmds[0])
    case Failed(e) => CompileResult(false, None, Some(e))
    case Ok(out) =>
      if |cmds| == 1 then CompileResult(true, Some(out), None)
      else
        var r := RunAll(cmds[1..], exec);
        assert forall k :: 1 <= k < |cmds| ==> cmds[k] == cmds[1..][k - 1];
        r
  }

  /** `executeCode(code, language)`, the temporary path and the command runner being inputs. */
  function ExecuteCode(code: string, language: string, path: string, exec: string -> Exec): (r: CompileResult)
    ensures PlanFor(code, language).Fixed? ==> r == PlanFor(code, language).result
    ensures !PlanFor(code, language).Fixed? ==>
              var cmds := Commands(PlanFor(code, language), path);
              (r.success <==> forall k :: 0 <= k < |cmds| ==> exec(cmds[k]).Ok?)
              && (r.success ==> r.output == Some(exec(cmds[|cmds| - 1]).stdout))
  {
    var p := PlanFor(code, language);
    if p.Fixed? then p.result else RunAll(Commands(p, path), exec)
  }

  /** html, css, Java without a public class, and unknown tags give their fixed result and run nothing. */
  lemma FixedResultsRunNothing(code: string, language: string, path: string, exec1: string -> Exec, exec2: string -> Exec)
    requires PlanFor(code, language).Fixed?
    ensures ExecuteCode(code, language, path, exec1) == ExecuteCode(code, language, path, exec2)
    ensures Sanitize(language) == "html" ==> ExecuteCode(code, language, path, exec1) == CompileResult(true, Some(HtmlNotice), None)
    ensures Sanitize(language) == "css" ==> ExecuteCode(code, language, path, exec1) == CompileResult(true, Some(CssNotice), None)
  {
  }

  /** The class name put into the run command is an identifier: no shell metacharacter can reach the command. */
  lemma ClassNameIsIdentifier(code: string)
    ensures ClassName(code).Some? ==>
              |ClassName(code).value| > 0 && forall k :: 0 <= k < |ClassName(code).value| ==> IsIdentChar(ClassName(code).value[k])
  {
    var i := FirstMatch(code, 0);
    if i <= |code| {
      AfterClassCaptures(code, i + 6 + SpaceRun(code, i + 6) + 5, ClassName(code).value);
    }
  }

  /** A compiled language fails with the compiler's error and never starts the program when compilation fails. */
  lemma BuildFailureStopsRun(code: string, language: string, path: string, exec: string -> Exec)
    requires PlanFor(code, language).Build? || PlanFor(code, language).JavaBuild?
    requires exec(Commands(PlanFor(code, language), path)[0]).Failed?
    ensures ExecuteCode(code, language, path, exec) ==
            CompileResult(false, None, Some(exec(Commands(PlanFor(code, language), path)[0]).error))
  {
  }
}
