/** The output contract inferred from the task text: free text, or a JSON array whose
    length and per-position element types come from numbered questions and phrasing
    cues (format_handler.py, `make_format_spec`). */
module FormatSpec {
  import opened Wrappers
  import Text

  datatype Container = FreeText | JsonArray | UnknownContainer(name: string)

  datatype ElemType = StringType | IntType | FloatType | BooleanType | DataUriPng | UnknownType(name: string)

  /** One position of the array: its type, the rounding for floats and the size ceiling
      for images. */
  datatype ElementSpec = ElementSpec(etype: ElemType, decimals: Option<nat>, maxBytes: Option<nat>)

  datatype Spec = Spec(container: Container, length: Option<nat>, elements: seq<ElementSpec>)

  const StringElement: ElementSpec := ElementSpec(StringType, None, None)

  /** The size ceiling the validator applies when an image element names none. */
  const DefaultMaxBytes: nat := 100000

  /** The shape every inferred spec has: a text spec carries neither length nor
      elements; an array spec with a known length has that many (positive) elements,
      and none when the length is unknown. */
  predicate WellFormed(spec: Spec) {
    match spec.container
    case FreeText => spec.length.None? && spec.elements == []
    case JsonArray =>
      (match spec.length
       case Some(n) => n > 0 && |spec.elements| == n
       case None => spec.elements == [])
    case UnknownContainer(_) => false
  }

  // ---------------------------------------------------------------------------
  // Counting numbered questions: re.findall(r"^\s*\d+\.\s+", text, flags=re.M)

  /** Number of consecutive whitespace characters from index `i`. */
  function SpaceRun(s: string, i: nat): (k: nat)
    requires i <= |s|
    ensures i + k <= |s|
    ensures forall j :: i <= j < i + k ==> Text.IsSpace(s[j])
    ensures i + k < |s| ==> !Text.IsSpace(s[i + k])
    decreases |s| - i
  {
    if i < |s| && Text.IsSpace(s[i]) then 1 + SpaceRun(s, i + 1) else 0
  }

  /** Number of consecutive ASCII digits from index `i`. */
  function DigitRun(s: string, i: nat): (k: nat)
    requires i <= |s|
    ensures i + k <= |s|
    ensures forall j :: i <= j < i + k ==> Text.IsAsciiDigit(s[j])
    ensures i + k < |s| ==> !Text.IsAsciiDigit(s[i + k])
    decreases |s| - i
  {
    if i < |s| && Text.IsAsciiDigit(s[i]) then 1 + DigitRun(s, i + 1) else 0
  }

  /** Where a match of `\s*\d+\.\s+` starting at `i` ends, if there is one. Every
      quantifier is greedy and the classes are disjoint, so the match is unique:
      whitespace, at least one digit, a dot, then at least one whitespace character. */
  function MatchEnd(s: string, i: nat): (r: Option<nat>)
    requires i <= |s|
    ensures r.Some? ==> i + 3 <= r.value <= |s|
  {
    var a := i + SpaceRun(s, i);
    var b := a + DigitRun(s, a);
    if b > a && b + 1 < |s| && s[b] == '.' && Text.IsSpace(s[b + 1]) then
      Some(b + 1 + SpaceRun(s, b + 1))
    else None
  }

  /** `^` under re.M: the start of the text or just after a line feed. */
  predicate LineStart(s: string, i: nat)
    requires i <= |s|
  {
    i == 0 || s[i - 1] == '\n'
  }

  /** A match of the numbered-question pattern can begin at `i`. */
  predicate MatchesAt(s: string, i: nat) {
    i <= |s| && LineStart(s, i) && MatchEnd(s, i).Some?
  }

  /** `findall` from index `i`: scan left to right, count a match and resume at its end. */
  function CountFrom(s: string, i: nat): nat
    requires i <= |s|
    decreases |s| - i
  {
    if i == |s| then 0
    else if MatchesAt(s, i) then 1 + CountFrom(s, MatchEnd(s, i).value)
    else CountFrom(s, i + 1)
  }

  /** `len(re.findall(r"^\s*\d+\.\s+", text, flags=re.M))`. */
  function CountNumbered(s: string): (n: nat)
    ensures n > 0 <==> exists p :: MatchesAt(s, p)
  {
    CountFromPositive(s, 0);
    CountFrom(s, 0)
  }

  lemma {:induction false} CountFromPositive(s: string, i: nat)
    requires i <= |s|
    ensures CountFrom(s, i) > 0 <==> exists p :: i <= p && MatchesAt(s, p)
    decreases |s| - i
  {
    if i == |s| {
      assert CountFrom(s, i) == 0;
      forall p | i <= p ensures !MatchesAt(s, p) {
        if p == |s| {
          assert MatchEnd(s, p).None?;
        }
      }
    } else if MatchesAt(s, i) {
      assert CountFrom(s, i) > 0;
      assert i <= i && MatchesAt(s, i);
    } else {
      CountFromPositive(s, i + 1);
      assert CountFrom(s, i) == CountFrom(s, i + 1);
      if exists p :: i <= p && MatchesAt(s, p) {
        var p :| i <= p && MatchesAt(s, p);
        assert p != i;
      }
    }
  }

  /** The count is non-zero exactly when some line start admits the pattern. */
  lemma CountNumberedPositive(s: string)
    ensures CountNumbered(s) > 0 <==> exists p :: MatchesAt(s, p)
  {
    CountFromPositive(s, 0);
  }

  // ---------------------------------------------------------------------------
  // make_format_spec

  /** The phrase cues, each a substring test on the lower-cased task text. */
  datatype Cues = Cues(jsonArray: bool, arrayOfStrings: bool, dataUri: bool, sizeCap: bool, correlation: bool)

  function CuesOf(task: string): Cues {
    var t := Text.Lower(task);
    Cues(
      Text.Contains(t, "json array") || Text.Contains(t, "respond with a json array"),
      Text.Contains(t, "array of strings"),
      Text.Contains(t, "data:image/png;base64") || Text.Contains(t, "base-64 encoded data uri")
        || Text.Contains(t, "base64 encoded data uri"),
      Text.Contains(t, "100,000") || Text.Contains(t, "100000"),
      Text.Contains(t, "correlation"))
  }

  /** Python's `x or d` for an optional count: `d` when `x` is None or zero. */
  function OrDefault(x: Option<nat>, d: nat): nat {
    if x.Some? && x.value != 0 then x.value else d
  }

  /** The element list built for `n` numbered questions, overrides applied in the
      source's order: all strings, then index 2 a 6-decimal float when the text speaks
      of correlation and there are at least three questions, then the last element a
      PNG data URI when one is asked for, then everything back to plain strings when
      the text says "array of strings". */
  function InferElements(n: nat, cues: Cues): seq<ElementSpec> {
    var maxBytes: Option<nat> := if cues.sizeCap then Some(100000) else None;
    var base := seq(n, _ => StringElement);
    var withFloat := if cues.correlation && n >= 3 then base[2 := ElementSpec(FloatType, Some(6), None)] else base;
    var withPng := if cues.dataUri && n >= 1
      then withFloat[n - 1 := ElementSpec(DataUriPng, None, Some(OrDefault(maxBytes, 100000)))]
      else withFloat;
    if cues.arrayOfStrings then seq(|withPng|, _ => StringElement) else withPng
  }

  /** The element an inferred spec holds at position `i` of `n`, stated position by
      position: "array of strings" wins over everything, the PNG override on the last
      position wins over the correlation float at index 2. */
  function ExpectedElement(i: nat, n: nat, cues: Cues): ElementSpec {
    if cues.arrayOfStrings then StringElement
    else if cues.dataUri && i == n - 1 then ElementSpec(DataUriPng, None, Some(100000))
    else if cues.correlation && n >= 3 && i == 2 then ElementSpec(FloatType, Some(6), None)
    else StringElement
  }

  /** The longer cue "respond with a json array" adds nothing: it contains "json array". */
  lemma LongerJsonArrayCue(t: string)
    ensures Text.Contains(t, "respond with a json array") ==> Text.Contains(t, "json array")
  {
    if Text.Contains(t, "respond with a json array") {
      var i :| Text.MatchAt(t, "respond with a json array", i);
      assert t[i + 15..i + 25] == t[i..i + 25][15..25];
      assert Text.MatchAt(t, "json array", i + 15);
    }
  }

  /** `make_format_spec(task_text)`: never fails; a JSON-array spec exactly when the
      lower-cased text mentions "json array", otherwise plain text. */
  function MakeFormatSpec(task: string): (spec: Spec)
    ensures WellFormed(spec)
    ensures spec.container == JsonArray <==> Text.Contains(Text.Lower(task), "json array")
    ensures spec.container != JsonArray ==> spec == Spec(FreeText, None, [])
    ensures spec.container == JsonArray ==>
      && (spec.length.Some? <==> CountNumbered(task) > 0)
      && (spec.length.Some? ==> spec.length.value == CountNumbered(task))
  {
    var cues := CuesOf(task);
    var n := CountNumbered(task);
    LongerJsonArrayCue(Text.Lower(task));
    InferElementsAt(n, cues);
    if cues.jsonArray then
      if n > 0 then Spec(JsonArray, Some(n), InferElements(n, cues))
      else Spec(JsonArray, None, [])
    else Spec(FreeText, None, [])
  }

  /** The override sequence agrees with the position-by-position statement. */
  lemma InferElementsAt(n: nat, cues: Cues)
    ensures |InferElements(n, cues)| == n
    ensures forall i :: 0 <= i < n ==> InferElements(n, cues)[i] == ExpectedElement(i, n, cues)
  {
  }

  /** Precedence of the overrides in an inferred array spec, position by position. */
  lemma InferredElements(task: string)
    ensures var spec := MakeFormatSpec(task);
      forall i :: 0 <= i < |spec.elements| ==>
        spec.elements[i] == ExpectedElement(i, |spec.elements|, CuesOf(task))
  {
    var spec := MakeFormatSpec(task);
    if spec.length.Some? {
      InferElementsAt(spec.length.value, CuesOf(task));
    }
  }

  /** An inferred image element always carries a ceiling of 100000 bytes, whether or
      not the text names one. */
  lemma InferredPngCeiling(task: string)
    ensures var spec := MakeFormatSpec(task);
      forall i :: 0 <= i < |spec.elements| && spec.elements[i].etype == DataUriPng ==>
        spec.elements[i].maxBytes == Some(100000)
  {
    InferredElements(task);
  }

  /** "array of strings" undoes both the correlation float and the PNG override. */
  lemma ArrayOfStringsWins(task: string)
    requires CuesOf(task).arrayOfStrings
    ensures forall e :: e in MakeFormatSpec(task).elements ==> e == StringElement
  {
    InferredElements(task);
  }
}
