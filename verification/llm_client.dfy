// The pure parts of the model client: taking code out of a fenced reply, and reading
// a plan reply with its fallback. The calls to the model service are outside the model.

module LlmClient {
  import opened Wrappers
  import opened Json
  import Text

  const Fence: string := "```"

  /** `_strip_code(text)`: the trimmed reply, or, when it opens with a fence, the third
      fence-separated piece (the text after the closing fence), or the text after the
      only fence when there is just one. */
  function StripCode(text: string): (r: string)
    ensures Text.IsStripped(r)
    ensures !Text.StartsWith(Text.Strip(text), Fence) ==> r == Text.Strip(text)
  {
    var t := Text.Strip(text);
    if Text.StartsWith(t, Fence) then
      var parts := Text.Split(t, Fence);
      if |parts| >= 3 then Text.Strip(parts[2]) else Text.Strip(parts[|parts| - 1])
    else t
  }

  /** A text without a backtick holds no fence. */
  lemma NoFence(s: string)
    requires Text.Lacks(s, '`')
    ensures !Text.Contains(s, Fence)
  {
    forall j | 0 <= j <= |s| - 3 ensures !Text.MatchAt(s, Fence, j) {
      assert s[j] != '`';
      assert s[j..j + 3][0] == s[j];
    }
  }

  /** Splitting on a fence after a run without backticks stops at that fence. */
  lemma SplitAfterPlain(a: string, b: string)
    requires Text.Lacks(a, '`')
    ensures Text.Split(a + Fence + b, Fence) == [a] + Text.Split(b, Fence)
  {
    forall j | 0 <= j < |a| ensures !Text.MatchAt(a + Fence + b, Fence, j) {
      assert (a + Fence + b)[j] == a[j];
      assert (a + Fence + b)[j..j + 3][0] == (a + Fence + b)[j];
    }
    Text.SplitAtFirst(a, Fence, b);
  }

  /** A leading fence splits off an empty first piece. */
  lemma SplitLeadingFence(x: string)
    ensures Text.Split(Fence + x, Fence) == [""] + Text.Split(x, Fence)
  {
    assert "" + Fence + x == Fence + x;
    SplitAfterPlain("", x);
  }

  /** An opening fence, a backtick-free body, a closing fence and backtick-free trailing
      text split into the empty piece, the body and the trailing text. */
  lemma SplitClosed(body: string, after: string)
    requires Text.Lacks(body, '`') && Text.Lacks(after, '`')
    ensures Text.Split(Fence + (body + Fence + after), Fence) == ["", body, after]
  {
    SplitLeadingFence(body + Fence + after);
    SplitAfterPlain(body, after);
    NoFence(after);
    Text.SplitNoSep(after, Fence);
  }

  /** The pieces of a block fenced on both sides, and the opening fence it starts with. */
  lemma ClosedPieces(body: string, after: string)
    requires Text.Lacks(body, '`') && Text.Lacks(after, '`')
    ensures Text.StartsWith(Fence + body + Fence + after, Fence)
    ensures Text.Split(Fence + body + Fence + after, Fence) == ["", body, after]
  {
    assert Fence + body + Fence + after == Fence + (body + Fence + after);
    SplitClosed(body, after);
    assert (Fence + body + Fence + after)[..3] == Fence;
  }

  /** A reply that opens with a fence is read from its fence-separated pieces. */
  lemma FencedPieces(text: string, t: string, pieces: seq<string>)
    requires Text.Strip(text) == t && Text.StartsWith(t, Fence)
    requires Text.Split(t, Fence) == pieces
    ensures |pieces| >= 3 ==> StripCode(text) == Text.Strip(pieces[2])
    ensures |pieces| < 3 ==> StripCode(text) == Text.Strip(pieces[|pieces| - 1])
  {
    var last := pieces[|pieces| - 1];
    assert StripCode(text) == if |pieces| >= 3 then Text.Strip(pieces[2]) else Text.Strip(last);
  }

  /** With something after the closing fence, that trailing text, trimmed, is what
      comes back. */
  lemma TextAfterClosingFence(text: string, body: string, after: string)
    requires Text.Strip(text) == Fence + body + Fence + after
    requires Text.Lacks(body, '`') && Text.Lacks(after, '`')
    ensures StripCode(text) == Text.Strip(after)
  {
    ClosedPieces(body, after);
    FencedPieces(text, Fence + body + Fence + after, ["", body, after]);
  }

  /** A reply fenced on both sides, "```lang\ncode\n```", yields the text after the
      closing fence: the empty string. */
  lemma FencedReplyIsEmpty(text: string, body: string)
    requires Text.Strip(text) == Fence + body + Fence
    requires Text.Lacks(body, '`')
    ensures StripCode(text) == ""
  {
    assert Fence + body + Fence + "" == Fence + body + Fence;
    TextAfterClosingFence(text, body, "");
  }

  /** With a single opening fence the text after it, trimmed, comes back. */
  lemma SingleFence(text: string, rest: string)
    requires Text.Strip(text) == Fence + rest
    requires Text.Lacks(rest, '`')
    ensures StripCode(text) == Text.Strip(rest)
  {
    SplitLeadingFence(rest);
    NoFence(rest);
    Text.SplitNoSep(rest, Fence);
    assert (Fence + rest)[..3] == Fence;
    FencedPieces(text, Fence + rest, ["", rest]);
  }

  /** The usual reply of a code model, a Python block between fences, is read as no code. */
  lemma PythonBlockExample()
    ensures StripCode("```python\nprint(1)\n```") == ""
  {
    var body := "python\nprint(1)\n";
    assert Text.Lacks(body, '`');
    var t := Fence + body + Fence;
    assert t == "```python\nprint(1)\n```";
    Text.StripStripped(t);
    FencedReplyIsEmpty(t, body);
  }

  // ---------------------------------------------------------------------------
  // The reading the function is evidently meant to have

  /** The text after the first line feed: a fenced block's body without its
      language tag. */
  function DropTag(s: string): (r: string)
    ensures |r| <= |s| && r == s[|s| - |r|..]
  {
    match Text.IndexOf(s, "\n")
    case None => s
    case Some(k) => s[k + 1..]
  }

  /** `_strip_code` as its callers need it: for a fenced reply, the second
      fence-separated piece (the block's body) without its language tag, trimmed. */
  function StripCodeFenced(text: string): (r: string)
    ensures Text.IsStripped(r)
    ensures !Text.StartsWith(Text.Strip(text), Fence) ==> r == Text.Strip(text)
  {
    var t := Text.Strip(text);
    if Text.StartsWith(t, Fence) then
      var parts := Text.Split(t, Fence);
      if |parts| >= 2 then Text.Strip(DropTag(parts[1])) else t
    else t
  }

  /** A language tag on its own line is dropped whole. */
  lemma DropTagAfterLine(lang: string, code: string)
    requires Text.Lacks(lang, '\n')
    ensures DropTag(lang + "\n" + code) == code
  {
    Text.FirstOccurrence(lang, '\n', code);
    assert lang + "\n" + code == lang + ['\n'] + code;
    assert (lang + "\n" + code)[|lang| + 1..] == code;
  }

  /** A reply that opens with a fence is read, in the corrected reading, from its
      second fence-separated piece. */
  lemma FencedPiecesCorrected(text: string, t: string, pieces: seq<string>)
    requires Text.Strip(text) == t && Text.StartsWith(t, Fence)
    requires Text.Split(t, Fence) == pieces && |pieces| >= 2
    ensures StripCodeFenced(text) == Text.Strip(DropTag(pieces[1]))
  {
  }

  /** For a block fenced on both sides the corrected reading takes the block's body. */
  lemma FencedBody(text: string, body: string)
    requires Text.Strip(text) == Fence + body + Fence
    requires Text.Lacks(body, '`')
    ensures StripCodeFenced(text) == Text.Strip(DropTag(body))
  {
    assert Text.Lacks("", '`');
    assert Fence + body + Fence + "" == Fence + body + Fence;
    ClosedPieces(body, "");
    FencedPiecesCorrected(text, Fence + body + Fence + "", ["", body, ""]);
  }

  /** For a reply "```lang\ncode```" the corrected reading gives the code, trimmed,
      where the function as written gives the empty string. */
  lemma FencedCodeRecovered(text: string, lang: string, code: string)
    requires Text.Strip(text) == Fence + (lang + "\n" + code) + Fence
    requires Text.Lacks(lang, '\n') && Text.Lacks(lang, '`') && Text.Lacks(code, '`')
    ensures StripCodeFenced(text) == Text.Strip(code)
    ensures StripCode(text) == ""
  {
    var body := lang + "\n" + code;
    assert Text.Lacks("\n", '`');
    Text.LacksConcat(lang, "\n", '`');
    Text.LacksConcat(lang + "\n", code, '`');
    FencedBody(text, body);
    DropTagAfterLine(lang, code);
    FencedReplyIsEmpty(text, body);
  }

  // ---------------------------------------------------------------------------
  // plan_task

  /** The plan used when the reply does not parse. */
  const DefaultPlan: JsonValue :=
    JObject([Field("inputs", JObject([])), Field("steps", JArray([])), Field("assumptions", JArray([]))])

  /** The parse step of `plan_task`: an empty reply reads as "{}", and a reply that does
      not parse gives the default plan. It never fails. */
  function PlanTask(host: Host, reply: string): (plan: JsonValue)
    ensures reply != "" && host.loads(reply).Some? ==> plan == host.loads(reply).value
    ensures reply != "" && host.loads(reply).None? ==> plan == DefaultPlan
    ensures reply == "" ==> plan == host.loads("{}").GetOr(DefaultPlan)
  {
    var txt := if reply == "" then "{}" else reply;
    match host.loads(txt)
    case Some(v) => v
    case None => DefaultPlan
  }

  /** A reply that is a serialised plan object, and that `json.loads` reads back, is
      taken as the plan itself. */
  lemma PlanTaskReadsPlan(host: Host, plan: JsonValue)
    requires plan.JObject? && host.loads(Dumps(plan)) == Some(plan)
    ensures PlanTask(host, Dumps(plan)) == plan
  {
    assert Dumps(plan)[0] == '{';
  }
}
