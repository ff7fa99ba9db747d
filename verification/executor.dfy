// run_user_code: the pure part of the sandbox runner. Writing the file, spawning the
// interpreter and waiting on it are outside the model; the process outcome is an input.

module Executor {
  import opened Wrappers
  import opened Bytes
  import Text
  import Utf8
  import Base64

  /** The fixed name of the runner script inside the working directory. */
  const RunFilename: string := "runner_user_code.py"

  /** The placeholder the template carries for the encoded program. */
  const Marker: string := "{USER_CODE_B64}"

  /** The runner template, line by line, split around its placeholder. */
  const Line1: string := "# Auto-generated runner: " + "decodes base64 -> user_code_exec.py" + " -> runs it.\n"
  const Line2: string := "import base64, runpy\n\n"
  const Line3: string := "USER_FILE = \"user_code_exec.py\"\n"
  const Line4: string := "code_b64 = \""
  const Line5: string := "\"\nwith open(USER_FILE, \"wb\") as f:\n"
  const Line6: string := "    f.write(base64.b64decode(" + "code_b64.encode(\"ascii\")))\n"
  const Line7: string := "runpy.run_path(USER_FILE, " + "run_name=\"__main__\")\n"

  const TemplateHead: string := Line1 + Line2 + Line3 + Line4
  const TemplateTail: string := Line5 + Line6 + Line7

  const WrapTemplate: string := TemplateHead + Marker + TemplateTail

  /** The program as the runner embeds it: base64 of its UTF-8 bytes. */
  function Payload(code: string): string {
    Base64.Encode(Utf8.Encode(code))
  }

  /** `WRAP_TEMPLATE.replace("{USER_CODE_B64}", code_b64)`. */
  function Wrapper(code: string): string {
    Text.ReplaceAll(WrapTemplate, Marker, Payload(code))
  }

  /** The encoded program never holds a character that could end or break the
      double-quoted literal it is placed in. */
  lemma PayloadQuoteSafe(code: string)
    ensures forall i :: 0 <= i < |Payload(code)| ==>
      Payload(code)[i] != '"' && Payload(code)[i] != '\\' && Payload(code)[i] != '\n'
  {
    var p := Payload(code);
    Base64.EncodeAlphabet(Utf8.Encode(code));
    forall i | 0 <= i < |p| ensures p[i] != '"' && p[i] != '\\' && p[i] != '\n' {
      assert Base64.IsAlphabet(p[i]) || p[i] == '=';
    }
  }

  lemma HeadLacksBrace()
    ensures Text.Lacks(TemplateHead, '{')
  {
    assert Text.Lacks("# Auto-generated runner: ", '{');
    assert Text.Lacks("decodes base64 -> user_code_exec.py", '{');
    assert Text.Lacks(" -> runs it.\n", '{');
    Text.LacksConcat("# Auto-generated runner: ", "decodes base64 -> user_code_exec.py", '{');
    Text.LacksConcat("# Auto-generated runner: " + "decodes base64 -> user_code_exec.py", " -> runs it.\n", '{');
    assert Text.Lacks(Line2, '{');
    assert Text.Lacks(Line3, '{');
    assert Text.Lacks(Line4, '{');
    Text.LacksConcat(Line1, Line2, '{');
    Text.LacksConcat(Line1 + Line2, Line3, '{');
    Text.LacksConcat(Line1 + Line2 + Line3, Line4, '{');
  }

  lemma TailLacksBrace()
    ensures Text.Lacks(TemplateTail, '{')
  {
    assert Text.Lacks(Line5, '{');
    assert Text.Lacks("    f.write(base64.b64decode(", '{');
    assert Text.Lacks("code_b64.encode(\"ascii\")))\n", '{');
    Text.LacksConcat("    f.write(base64.b64decode(", "code_b64.encode(\"ascii\")))\n", '{');
    assert Text.Lacks("runpy.run_path(USER_FILE, ", '{');
    assert Text.Lacks("run_name=\"__main__\")\n", '{');
    Text.LacksConcat("runpy.run_path(USER_FILE, ", "run_name=\"__main__\")\n", '{');
    Text.LacksConcat(Line5, Line6, '{');
    Text.LacksConcat(Line5 + Line6, Line7, '{');
  }

  /** Replacing a pattern that occurs once, between two texts lacking its first
      character, gives the two texts around the replacement. */
  lemma ReplaceOnce(head: string, tail: string, pat: string, rep: string)
    requires |pat| > 0 && Text.Lacks(head, pat[0]) && Text.Lacks(tail, pat[0])
    ensures Text.ReplaceAll(head + pat + tail, pat, rep) == head + rep + tail
  {
    assert head + pat + tail == head + (pat + tail);
    Text.ReplaceAfterPrefix(head, pat + tail, pat, rep);
    assert (pat + tail)[..|pat|] == pat;
    assert (pat + tail)[|pat|..] == tail;
    Text.ReplaceAbsent(tail, pat, rep);
  }

  /** The substitution touches only the placeholder: the wrapper is the template's head,
      the encoded program, and the template's tail. */
  lemma WrapperShape(code: string)
    ensures Wrapper(code) == TemplateHead + Payload(code) + TemplateTail
  {
    HeadLacksBrace();
    TailLacksBrace();
    ReplaceOnce(TemplateHead, TemplateTail, Marker, Payload(code));
  }

  /** What the generated runner assigns to `code_b64`: the text from the opening quote
      to the next quote. */
  function EmbeddedLiteral(w: string): Option<string> {
    if !Text.StartsWith(w, TemplateHead) then None
    else
      var rest := w[|TemplateHead|..];
      match Text.IndexOf(rest, "\"")
      case None => None
      case Some(k) => Some(rest[..k])
  }

  /** Between the head and a tail that opens with a quote, a quote-free text is read
      back whole. */
  lemma LiteralBetween(p: string, tail: string)
    requires Text.Lacks(p, '"') && |tail| > 0 && tail[0] == '"'
    ensures EmbeddedLiteral(TemplateHead + p + tail) == Some(p)
  {
    var w := TemplateHead + p + tail;
    assert w[..|TemplateHead|] == TemplateHead;
    var rest := w[|TemplateHead|..];
    assert rest == p + tail;
    assert Text.MatchAt(rest, "\"", |p|) by {
      assert rest[|p|..|p| + 1] == [tail[0]];
    }
    forall j | 0 <= j < |p| ensures !Text.MatchAt(rest, "\"", j) {
      assert rest[j..j + 1] == [p[j]];
    }
    var k := Text.IndexOf(rest, "\"").value;
    assert k == |p|;
    assert rest[..k] == p;
  }

  /** The runner's literal is exactly the encoded program, and decoding it as the runner
      does gives back the program's UTF-8 bytes, which decode to the program. */
  lemma WrapperRoundTrip(code: string)
    ensures EmbeddedLiteral(Wrapper(code)) == Some(Payload(code))
    ensures Base64.Decode(Payload(code)) == Base64.Bytes(Utf8.Encode(code))
    ensures Utf8.DecodeReplace(Utf8.Encode(code)) == code
  {
    WrapperShape(code);
    PayloadQuoteSafe(code);
    assert TemplateTail[0] == '"';
    LiteralBetween(Payload(code), TemplateTail);
    Base64.DecodeEncode(Utf8.Encode(code));
    Utf8.DecodeEncode(code);
  }

  // ---------------------------------------------------------------------------
  // The child environment

  /** The parent's environment with output unbuffered and the API key blanked. */
  function ChildEnv(parent: map<string, string>): (env: map<string, string>)
    ensures env.Keys == parent.Keys + {"PYTHONUNBUFFERED", "OPENAI_API_KEY"}
    ensures env["PYTHONUNBUFFERED"] == "1" && env["OPENAI_API_KEY"] == ""
    ensures forall k :: k in parent && k != "PYTHONUNBUFFERED" && k != "OPENAI_API_KEY" ==> env[k] == parent[k]
  {
    parent["PYTHONUNBUFFERED" := "1"]["OPENAI_API_KEY" := ""]
  }

  /** Building the child environment from a child environment changes nothing. */
  lemma ChildEnvIdempotent(parent: map<string, string>)
    ensures ChildEnv(ChildEnv(parent)) == ChildEnv(parent)
  {
  }

  // ---------------------------------------------------------------------------
  // run_user_code

  /** `os.path.join(cwd, name)` for a relative file name. */
  function JoinPath(dir: string, name: string): (p: string)
    requires |name| > 0 && name[0] != '/'
    ensures |p| >= |name| && p[|p| - |name|..] == name
    ensures |p| >= |dir| && p[..|dir|] == dir
  {
    if dir == "" || dir[|dir| - 1] == '/' then dir + name else dir + "/" + name
  }

  /** What is launched: the script's path, its text and the child's environment. */
  datatype Launch = Launch(path: string, script: string, env: map<string, string>)

  /** How the child ended: its exit code and captured output, or the timeout (after
      which `kill` is attempted, and any failure of it ignored). */
  datatype Process = Exited(code: int, out: seq<byte>, err: seq<byte>) | TimedOut(killFailed: bool)

  datatype RunResult = RunResult(ok: bool, stdout: string, stderr: string)

  /** The launch made, if any, and the result returned. */
  datatype Outcome = Outcome(launch: Option<Launch>, result: RunResult)

  /** `run_user_code(user_code, cwd, timeout)`, with the parent's environment and the
      process's fate as inputs. */
  function RunUserCode(code: string, cwd: string, parent: map<string, string>,
                       process: Launch -> Process): (o: Outcome)
    ensures Text.Strip(code) == "" <==> o.launch.None?
    ensures o.launch.None? ==> o.result == RunResult(false, "", "empty code")
    ensures o.launch.Some? ==> o.launch.value.script == TemplateHead + Payload(code) + TemplateTail
    ensures o.result.ok <==> o.launch.Some? && process(o.launch.value).Exited?
                              && process(o.launch.value).code == 0
    ensures o.launch.Some? && process(o.launch.value).TimedOut? ==> o.result == RunResult(false, "", "timeout")
    ensures o.launch.Some? && process(o.launch.value).Exited? ==>
      && o.result.stdout == Utf8.DecodeReplace(process(o.launch.value).out)
      && o.result.stderr == Utf8.DecodeReplace(process(o.launch.value).err)
  {
    if Text.Strip(code) == "" then Outcome(None, RunResult(false, "", "empty code"))
    else
      WrapperShape(code);
      var launch := Launch(JoinPath(cwd, RunFilename), Wrapper(code), ChildEnv(parent));
      match process(launch)
      case Exited(rc, out, err) =>
        Outcome(Some(launch), RunResult(rc == 0, Utf8.DecodeReplace(out), Utf8.DecodeReplace(err)))
      case TimedOut(_) => Outcome(Some(launch), RunResult(false, "", "timeout"))
  }

  /** Every launch runs the fixed script name inside the working directory, under the
      child environment. */
  lemma LaunchTarget(code: string, cwd: string, parent: map<string, string>, process: Launch -> Process)
    requires Text.Strip(code) != ""
    ensures var l := RunUserCode(code, cwd, parent, process).launch.value;
      && l.path == JoinPath(cwd, RunFilename)
      && l.env == ChildEnv(parent)
      && EmbeddedLiteral(l.script) == Some(Payload(code))
  {
    var launch := Launch(JoinPath(cwd, RunFilename), Wrapper(code), ChildEnv(parent));
    assert RunUserCode(code, cwd, parent, process).launch == Some(launch);
    WrapperRoundTrip(code);
  }

  /** Whether `kill` failed after a timeout makes no difference to the result. */
  lemma KillFailureIgnored(code: string, cwd: string, parent: map<string, string>,
                           p1: Launch -> Process, p2: Launch -> Process)
    requires Text.Strip(code) != ""
    requires forall l :: p1(l).TimedOut? && p2(l).TimedOut?
    ensures RunUserCode(code, cwd, parent, p1) == RunUserCode(code, cwd, parent, p2)
  {
  }
}
