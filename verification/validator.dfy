/** Output validation and coercion (format_handler.py, `validate_and_coerce`): the
    program's stdout is checked against the inferred spec and turned into the final
    answer text, or rejected with a ValidationError, or fails with some other
    exception. */
module Validator {
  import opened Wrappers
  import opened Json
  import opened FormatSpec
  import Text
  import Base64

  /** The reasons `validate_and_coerce` raises ValidationError. */
  datatype Rejection =
    | NoArrayFound
    | InvalidJson
    | NotAnArray
    | NotPngUri
    | PngTooLarge(size: nat, limit: nat)
    | UnsupportedContainer(name: string)

  /** Exceptions of other types that escape it: an IndexError when an image position
      lies past the end of the array, and the errors of `base64.b64decode`. */
  datatype Fault = IndexOutOfRange | Base64NotAscii | Base64BadPadding

  datatype Failure = Invalid(why: Rejection) | Crash(fault: Fault)

  /** The outcome of one call: the answer text, a ValidationError, or another exception. */
  datatype Verdict = Accepted(payload: string) | Rejected(why: Rejection) | Crashed(fault: Fault)

  const PngPrefix: string := "data:image/png;base64,"

  const Placeholder: string := "N/A"

  // ---------------------------------------------------------------------------
  // Locating the array: re.search(r"(\[.*\])", s, flags=re.S)

  /** `s` holds an opening bracket somewhere before a closing one. */
  predicate HasBracketPair(s: string) {
    exists i, j :: 0 <= i < j < |s| && s[i] == '[' && s[j] == ']'
  }

  function FirstIndex(s: string, c: char): (r: Option<nat>)
    ensures r.Some? ==> r.value < |s| && s[r.value] == c && forall k :: 0 <= k < r.value ==> s[k] != c
    ensures r.None? ==> forall k :: 0 <= k < |s| ==> s[k] != c
  {
    if |s| == 0 then None
    else if s[0] == c then Some(0)
    else match FirstIndex(s[1..], c)
      case None => None
      case Some(k) => Some(k + 1)
  }

  function LastIndex(s: string, c: char): (r: Option<nat>)
    ensures r.Some? ==> r.value < |s| && s[r.value] == c && forall k :: r.value < k < |s| ==> s[k] != c
    ensures r.None? ==> forall k :: 0 <= k < |s| ==> s[k] != c
  {
    if |s| == 0 then None
    else if s[|s| - 1] == c then Some(|s| - 1)
    else LastIndex(s[..|s| - 1], c)
  }

  /** The greedy match runs from the first `[` to the last `]`, and exists exactly when
      some `[` comes before some `]`. */
  function ArraySpan(s: string): (r: Option<string>)
    ensures r.Some? <==> HasBracketPair(s)
    ensures r.Some? ==> exists a, b :: SpanBounds(s, a, b) && r.value == s[a..b + 1]
  {
    match (FirstIndex(s, '['), LastIndex(s, ']'))
    case (Some(a), Some(b)) =>
      if a < b then
        assert SpanBounds(s, a, b);
        Some(s[a..b + 1])
      else None
    case _ => None
  }

  /** `a` is the first `[` of `s`, `b` its last `]`, and `a` comes first. */
  predicate SpanBounds(s: string, a: int, b: int) {
    && 0 <= a < b < |s| && s[a] == '[' && s[b] == ']'
    && (forall k :: 0 <= k < a ==> s[k] != '[')
    && (forall k :: b < k < |s| ==> s[k] != ']')
  }

  // ---------------------------------------------------------------------------
  // Length reconciliation and coercion

  /** Truncate to the target length keeping the prefix, or pad with "N/A". */
  function FitLength(arr: seq<JsonValue>, target: Option<nat>): (r: seq<JsonValue>)
    ensures target.None? ==> r == arr
    ensures target.Some? ==> |r| == target.value
    ensures forall i :: 0 <= i < |r| ==> r[i] == (if i < |arr| then arr[i] else JStr(Placeholder))
  {
    match target
    case None => arr
    case Some(n) =>
      if |arr| >= n then arr[..n]
      else arr + seq(n - |arr|, _ => JStr(Placeholder))
  }

  /** `_coerce_value(v, et)`: the value converted to the element's declared type; a
      failed int conversion gives 0, a failed float conversion 0.0 (rounded when the
      element names decimals), and an unknown type leaves the value alone. */
  function CoerceValue(v: JsonValue, e: ElementSpec, ops: FloatOps): (r: JsonValue)
    ensures e.etype == StringType || e.etype == DataUriPng ==> r == JStr(PyStr(v))
    ensures e.etype == IntType ==> r.JInt? && (PyInt(v, ops).Some? ==> r.i == PyInt(v, ops).value)
                                   && (PyInt(v, ops).None? ==> r.i == 0)
    ensures e.etype == FloatType ==> r.JFloat?
    ensures e.etype == BooleanType ==> r == JBool(Truthy(v))
    ensures e.etype.UnknownType? ==> r == v
  {
    match e.etype
    case StringType => JStr(PyStr(v))
    case IntType => JInt(PyInt(v, ops).GetOr(0))
    case FloatType =>
      var f := PyFloat(v, ops).GetOr(Zero);
      JFloat(if e.decimals.Some? then ops.round(f, e.decimals.value) else f)
    case BooleanType => JBool(Truthy(v))
    case DataUriPng => JStr(PyStr(v))
    case UnknownType(_) => v
  }

  /** Coercion applies position by position, and only when the spec lists elements and
      their number equals the array's length. */
  function CoerceAll(arr: seq<JsonValue>, elems: seq<ElementSpec>, ops: FloatOps): (r: seq<JsonValue>)
    ensures |r| == |arr|
    ensures |elems| > 0 && |elems| == |arr| ==> forall i :: 0 <= i < |r| ==> r[i] == CoerceValue(arr[i], elems[i], ops)
    ensures !(|elems| > 0 && |elems| == |arr|) ==> r == arr
  {
    if |elems| > 0 && |elems| == |arr| then Zip(arr, elems, ops) else arr
  }

  function Zip(arr: seq<JsonValue>, elems: seq<ElementSpec>, ops: FloatOps): (r: seq<JsonValue>)
    requires |elems| == |arr|
    ensures |r| == |arr|
    ensures forall i :: 0 <= i < |r| ==> r[i] == CoerceValue(arr[i], elems[i], ops)
  {
    if |arr| == 0 then [] else [CoerceValue(arr[0], elems[0], ops)] + Zip(arr[1..], elems[1..], ops)
  }

  // ---------------------------------------------------------------------------
  // The image check

  /** The size ceiling of an element: its own, or 100000. */
  function Limit(e: ElementSpec): nat {
    e.maxBytes.GetOr(DefaultMaxBytes)
  }

  /** The payload `s.split(",", 1)[1]` of a PNG data URI: the first comma is the one
      that ends the prefix. */
  lemma FirstCommaEndsPrefix(s: string)
    requires Text.StartsWith(s, PngPrefix)
    ensures Text.IndexOf(s, ",") == Some(|PngPrefix| - 1)
  {
    assert s[..|PngPrefix|] == PngPrefix;
    assert Text.MatchAt(s, ",", |PngPrefix| - 1);
    forall j | 0 <= j < |PngPrefix| - 1 ensures !Text.MatchAt(s, ",", j) {
      assert s[j] == PngPrefix[j];
    }
  }

  /** The text after the first comma, as `split(",", 1)[1]` gives it. */
  function UriPayload(s: string): (p: string)
    requires Text.StartsWith(s, PngPrefix)
    ensures p == s[|PngPrefix|..]
  {
    FirstCommaEndsPrefix(s);
    var k := Text.IndexOf(s, ",").value;
    s[k + 1..]
  }

  /** One image position: a str with the PNG data-URI prefix whose base64 payload
      decodes to at most `limit` bytes. */
  function CheckImage(v: JsonValue, limit: nat): (r: Option<Failure>)
    ensures r.None? <==> v.JStr? && Text.StartsWith(v.s, PngPrefix)
                         && Base64.Decode(v.s[|PngPrefix|..]).Bytes?
                         && |Base64.Decode(v.s[|PngPrefix|..]).value| <= limit
    ensures !(v.JStr? && Text.StartsWith(v.s, PngPrefix)) ==> r == Some(Invalid(NotPngUri))
    ensures r.Some? && r.value.Crash? ==> v.JStr? && Base64.Decode(v.s[|PngPrefix|..]).Error?
    ensures v.JStr? && Text.StartsWith(v.s, PngPrefix) && Base64.Decode(v.s[|PngPrefix|..]).Error?
            ==> r.Some? && r.value.Crash?
    ensures v.JStr? && Text.StartsWith(v.s, PngPrefix) && Base64.Decode(v.s[|PngPrefix|..]).Bytes?
            && |Base64.Decode(v.s[|PngPrefix|..]).value| > limit
            ==> r == Some(Invalid(PngTooLarge(|Base64.Decode(v.s[|PngPrefix|..]).value|, limit)))
  {
    if !(v.JStr? && Text.StartsWith(v.s, PngPrefix)) then Some(Invalid(NotPngUri))
    else
      var d := Base64.Decode(UriPayload(v.s));
      if d.Error? then Some(Crash(if d.error == Base64.NonAscii then Base64NotAscii else Base64BadPadding))
      else if |d.value| > limit then Some(Invalid(PngTooLarge(|d.value|, limit)))
      else None
  }

  /** The loop over the spec's elements from index `i`, stopping at the first failure. */
  function CheckImagesFrom(arr: seq<JsonValue>, elems: seq<ElementSpec>, i: nat): Option<Failure>
    requires i <= |elems|
    decreases |elems| - i
  {
    if i == |elems| then None
    else if elems[i].etype != DataUriPng then CheckImagesFrom(arr, elems, i + 1)
    else if i >= |arr| then Some(Crash(IndexOutOfRange))
    else match CheckImage(arr[i], Limit(elems[i]))
      case Some(f) => Some(f)
      case None => CheckImagesFrom(arr, elems, i + 1)
  }

  /** Every image position of the spec holds an acceptable PNG data URI. */
  predicate ImagesOk(arr: seq<JsonValue>, elems: seq<ElementSpec>) {
    forall i :: 0 <= i < |elems| && elems[i].etype == DataUriPng ==>
      i < |arr| && CheckImage(arr[i], Limit(elems[i])).None?
  }

  /** The loop reports the first image position that fails: one past the end of the
      array, or one whose value the image check refuses. */
  lemma {:induction false} FirstImageFailure(arr: seq<JsonValue>, elems: seq<ElementSpec>, i: nat, k: nat)
    requires i <= k < |elems| && elems[k].etype == DataUriPng
    requires k >= |arr| || CheckImage(arr[k], Limit(elems[k])).Some?
    requires forall j :: i <= j < k && elems[j].etype == DataUriPng ==>
      j < |arr| && CheckImage(arr[j], Limit(elems[j])).None?
    ensures CheckImagesFrom(arr, elems, i)
         == (if k >= |arr| then Some(Crash(IndexOutOfRange)) else CheckImage(arr[k], Limit(elems[k])))
    decreases k - i
  {
    if i < k {
      FirstImageFailure(arr, elems, i + 1, k);
    }
  }

  lemma {:induction false} CheckImagesFromOk(arr: seq<JsonValue>, elems: seq<ElementSpec>, i: nat)
    requires i <= |elems|
    ensures CheckImagesFrom(arr, elems, i).None? <==>
      forall k :: i <= k < |elems| && elems[k].etype == DataUriPng ==>
        k < |arr| && CheckImage(arr[k], Limit(elems[k])).None?
    decreases |elems| - i
  {
    if i < |elems| {
      CheckImagesFromOk(arr, elems, i + 1);
    }
  }

  // ---------------------------------------------------------------------------
  // validate_and_coerce

  /** The array the JSON branch arrives at, or why it stopped. */
  datatype Shaped = Shaped(items: seq<JsonValue>) | Stopped(failure: Failure)

  /** The JSON-array branch up to serialisation: locate, parse, fit the length,
      coerce, check images. */
  function ShapeArray(host: Host, s: string, spec: Spec): (r: Shaped)
    ensures !HasBracketPair(s) ==> r == Stopped(Invalid(NoArrayFound))
    ensures r.Shaped? ==> (spec.length.Some? ==> |r.items| == spec.length.value)
                          && ImagesOk(r.items, spec.elements)
    ensures HasBracketPair(s) ==>
      var loaded := host.loads(ArraySpan(s).value);
      && (loaded.None? ==> r == Stopped(Invalid(InvalidJson)))
      && (loaded.Some? && !loaded.value.JArray? ==> r == Stopped(Invalid(NotAnArray)))
      && (loaded.Some? && loaded.value.JArray? ==>
            var arr := CoerceAll(FitLength(loaded.value.items, spec.length), spec.elements, host.floats);
            && (r.Shaped? <==> ImagesOk(arr, spec.elements))
            && (r.Shaped? ==> r.items == arr)
            && (r.Stopped? ==> Some(r.failure) == CheckImagesFrom(arr, spec.elements, 0)))
  {
    match ArraySpan(s)
    case None => Stopped(Invalid(NoArrayFound))
    case Some(span) =>
      match host.loads(span)
      case None => Stopped(Invalid(InvalidJson))
      case Some(v) =>
        if !v.JArray? then Stopped(Invalid(NotAnArray))
        else
          var arr := CoerceAll(FitLength(v.items, spec.length), spec.elements, host.floats);
          CheckImagesFromOk(arr, spec.elements, 0);
          match CheckImagesFrom(arr, spec.elements, 0)
          case Some(f) => Stopped(f)
          case None => Shaped(arr)
  }

  /** The free-text answer: the stripped output, or "N/A" when nothing is left. */
  function TextAnswer(stdout: string): (a: string)
    ensures |a| > 0 && Text.IsStripped(a)
    ensures a == Placeholder || a == Text.Strip(stdout)
    ensures Text.Strip(stdout) == "" ==> a == Placeholder
    ensures Text.Strip(stdout) != "" ==> a == Text.Strip(stdout)
  {
    var s := Text.Strip(stdout);
    if s == "" then Placeholder else s
  }

  /** A ValidationError becomes a rejection, any other exception a crash. */
  function FailVerdict(f: Failure): (r: Verdict)
    ensures !r.Accepted?
    ensures r.Rejected? <==> f.Invalid?
  {
    match f
    case Invalid(why) => Rejected(why)
    case Crash(fault) => Crashed(fault)
  }

  /** The verdict of the JSON-array branch on stripped output `s`: the serialised
      array, of the spec's length when it has one, with every image position
      acceptable; "no array" when `s` has no bracket pair. */
  function ArrayVerdict(host: Host, s: string, spec: Spec): (r: Verdict)
    ensures !HasBracketPair(s) ==> r == Rejected(NoArrayFound)
    ensures r.Accepted? ==>
      exists items :: r.payload == Dumps(JArray(items))
                   && (spec.length.Some? ==> |items| == spec.length.value)
                   && ImagesOk(items, spec.elements)
  {
    match ShapeArray(host, s, spec)
    case Stopped(f) => FailVerdict(f)
    case Shaped(items) => Accepted(Dumps(JArray(items)))
  }

  /** `validate_and_coerce(stdout_text, spec)`. Free text never fails and is never
      empty; an unknown container is rejected; a JSON-array answer is the serialised
      array, of the spec's length when it has one, with every image position
      acceptable. */
  function ValidateAndCoerce(host: Host, stdout: string, spec: Spec): (r: Verdict)
    ensures spec.container == FreeText ==> r == Accepted(TextAnswer(stdout))
    ensures spec.container.UnknownContainer? ==> r == Rejected(UnsupportedContainer(spec.container.name))
    ensures spec.container == JsonArray && !HasBracketPair(Text.Strip(stdout)) ==> r == Rejected(NoArrayFound)
    ensures spec.container == JsonArray && r.Accepted? ==>
      exists items :: r.payload == Dumps(JArray(items))
                   && (spec.length.Some? ==> |items| == spec.length.value)
                   && ImagesOk(items, spec.elements)
  {
    match spec.container
    case FreeText => Accepted(TextAnswer(stdout))
    case UnknownContainer(name) => Rejected(UnsupportedContainer(name))
    case JsonArray => ArrayVerdict(host, Text.Strip(stdout), spec)
  }

  // ---------------------------------------------------------------------------
  // Properties

  /** `round(round(f, d), d) == round(f, d)`, which Python's `round` satisfies. */
  ghost predicate RoundStable(ops: FloatOps) {
    forall f, d :: ops.round(ops.round(f, d), d) == ops.round(f, d)
  }

  /** `json.loads` reads back the serialised array the JSON branch arrives at for `s`. */
  ghost predicate ReadsBackShaped(host: Host, s: string, spec: Spec) {
    var r := ShapeArray(host, s, spec);
    r.Shaped? ==> host.loads(Dumps(JArray(r.items))) == Some(JArray(r.items))
  }

  /** Coercing an already coerced value changes nothing. */
  lemma CoerceIdempotent(v: JsonValue, e: ElementSpec, ops: FloatOps)
    requires RoundStable(ops)
    ensures CoerceValue(CoerceValue(v, e, ops), e, ops) == CoerceValue(v, e, ops)
  {
    if e.etype == FloatType && e.decimals.Some? {
      var f := PyFloat(v, ops).GetOr(Zero);
      assert ops.round(ops.round(f, e.decimals.value), e.decimals.value) == ops.round(f, e.decimals.value);
    }
  }

  /** Text that opens with '[' and closes with ']' is stripped and is its own span. */
  lemma SpanOfBracketed(p: string)
    requires |p| >= 2 && p[0] == '[' && p[|p| - 1] == ']'
    ensures Text.IsStripped(p) && ArraySpan(p) == Some(p)
  {
    assert FirstIndex(p, '[') == Some(0);
    assert LastIndex(p, ']') == Some(|p| - 1);
    assert p[0..|p| - 1 + 1] == p;
  }

  /** A serialised array is its own bracket span. */
  lemma SpanOfDumpedArray(items: seq<JsonValue>)
    ensures var p := Dumps(JArray(items));
      Text.IsStripped(p) && ArraySpan(p) == Some(p)
  {
    var p := Dumps(JArray(items));
    assert p == "[" + DumpsItems(items) + "]";
    SpanOfBracketed(p);
  }

  /** Fitting an already fitted array changes nothing. */
  lemma FitLengthIdempotent(arr: seq<JsonValue>, target: Option<nat>)
    ensures FitLength(FitLength(arr, target), target) == FitLength(arr, target)
  {
    var r := FitLength(arr, target);
    if target.Some? {
      assert |r| == target.value;
      assert FitLength(r, target) == r[..target.value];
      assert r[..target.value] == r;
    }
  }

  /** Coercing an already coerced array changes nothing. */
  lemma CoerceAllIdempotent(arr: seq<JsonValue>, elems: seq<ElementSpec>, ops: FloatOps)
    requires RoundStable(ops)
    ensures CoerceAll(CoerceAll(arr, elems, ops), elems, ops) == CoerceAll(arr, elems, ops)
  {
    var r := CoerceAll(arr, elems, ops);
    if |elems| > 0 && |elems| == |arr| {
      forall i | 0 <= i < |r| ensures CoerceValue(r[i], elems[i], ops) == r[i] {
        CoerceIdempotent(arr[i], elems[i], ops);
      }
    }
  }

  /** An array that is already fitted, coerced and image-checked survives a second
      pass through the JSON branch once serialised. */
  lemma ShapeStable(host: Host, spec: Spec, items: seq<JsonValue>)
    requires host.loads(Dumps(JArray(items))) == Some(JArray(items))
    requires FitLength(items, spec.length) == items
    requires CoerceAll(items, spec.elements, host.floats) == items
    requires ImagesOk(items, spec.elements)
    ensures ShapeArray(host, Dumps(JArray(items)), spec) == Shaped(items)
  {
    SpanOfDumpedArray(items);
    CheckImagesFromOk(items, spec.elements, 0);
  }

  /** Re-validating an accepted answer with the same spec gives the same answer, for
      free text and for JSON arrays alike. */
  lemma ValidateIdempotent(host: Host, stdout: string, spec: Spec)
    requires RoundStable(host.floats)
    requires spec.container == JsonArray ==> ReadsBackShaped(host, Text.Strip(stdout), spec)
    requires ValidateAndCoerce(host, stdout, spec).Accepted?
    ensures var p := ValidateAndCoerce(host, stdout, spec).payload;
      ValidateAndCoerce(host, p, spec) == Accepted(p)
  {
    var p := ValidateAndCoerce(host, stdout, spec).payload;
    match spec.container
    case FreeText =>
      Text.StripStripped(p);
    case JsonArray =>
      var s := Text.Strip(stdout);
      var v := host.loads(ArraySpan(s).value).value;
      var fitted := FitLength(v.items, spec.length);
      var items := CoerceAll(fitted, spec.elements, host.floats);
      assert ShapeArray(host, s, spec) == Shaped(items);
      FitLengthIdempotent(v.items, spec.length);
      assert FitLength(items, spec.length) == items;
      CoerceAllIdempotent(fitted, spec.elements, host.floats);
      ShapeStable(host, spec, items);
      SpanOfDumpedArray(items);
      Text.StripStripped(p);
  }

  /** Once the output parses as a JSON array, a spec without image positions never
      rejects it: a length mismatch is truncated or padded, not an error. */
  lemma LengthMismatchNeverRejects(host: Host, stdout: string, spec: Spec, xs: seq<JsonValue>)
    requires spec.container == JsonArray
    requires forall e :: e in spec.elements ==> e.etype != DataUriPng
    requires HasBracketPair(Text.Strip(stdout))
    requires host.loads(ArraySpan(Text.Strip(stdout)).value) == Some(JArray(xs))
    ensures ValidateAndCoerce(host, stdout, spec)
         == Accepted(Dumps(JArray(CoerceAll(FitLength(xs, spec.length), spec.elements, host.floats))))
  {
    var s := Text.Strip(stdout);
    var arr := CoerceAll(FitLength(xs, spec.length), spec.elements, host.floats);
    CheckImagesFromOk(arr, spec.elements, 0);
    forall k | 0 <= k < |spec.elements| ensures spec.elements[k].etype != DataUriPng {
      assert spec.elements[k] in spec.elements;
    }
    assert CheckImagesFrom(arr, spec.elements, 0).None?;
    assert ShapeArray(host, s, spec) == Shaped(arr);
  }

  /** Output whose bracketed part is not JSON, or is JSON but not an array, is rejected. */
  lemma BadJsonRejected(host: Host, stdout: string, spec: Spec)
    requires spec.container == JsonArray
    requires HasBracketPair(Text.Strip(stdout))
    ensures var loaded := host.loads(ArraySpan(Text.Strip(stdout)).value);
      && (loaded.None? ==> ValidateAndCoerce(host, stdout, spec) == Rejected(InvalidJson))
      && (loaded.Some? && !loaded.value.JArray? ==> ValidateAndCoerce(host, stdout, spec) == Rejected(NotAnArray))
  {
    var s := Text.Strip(stdout);
    JsonBranch(host, stdout, spec);
    var loaded := host.loads(ArraySpan(s).value);
    if loaded.None? {
      assert ShapeArray(host, s, spec) == Stopped(Invalid(InvalidJson));
      assert ArrayVerdict(host, s, spec) == Rejected(InvalidJson);
    } else if !loaded.value.JArray? {
      assert ShapeArray(host, s, spec) == Stopped(Invalid(NotAnArray));
      assert ArrayVerdict(host, s, spec) == Rejected(NotAnArray);
    }
  }

  /** Once the output parses as a JSON array, the answer is that array fitted to the
      spec's length and coerced, serialised, exactly when every image position of it
      passes; otherwise the image loop's first failure decides the verdict. */
  lemma ArrayBranch(host: Host, stdout: string, spec: Spec, xs: seq<JsonValue>)
    requires spec.container == JsonArray
    requires HasBracketPair(Text.Strip(stdout))
    requires host.loads(ArraySpan(Text.Strip(stdout)).value) == Some(JArray(xs))
    ensures var arr := CoerceAll(FitLength(xs, spec.length), spec.elements, host.floats);
      var r := ValidateAndCoerce(host, stdout, spec);
      && (r.Accepted? <==> ImagesOk(arr, spec.elements))
      && (r.Accepted? ==> r == Accepted(Dumps(JArray(arr))))
      && (!r.Accepted? ==> r == FailVerdict(CheckImagesFrom(arr, spec.elements, 0).value))
  {
    var s := Text.Strip(stdout);
    JsonBranch(host, stdout, spec);
    var arr := CoerceAll(FitLength(xs, spec.length), spec.elements, host.floats);
    var sh := ShapeArray(host, s, spec);
    assert sh.Shaped? <==> ImagesOk(arr, spec.elements);
    if sh.Shaped? {
      assert sh.items == arr;
      assert ArrayVerdict(host, s, spec) == Accepted(Dumps(JArray(arr)));
    } else {
      assert Some(sh.failure) == CheckImagesFrom(arr, spec.elements, 0);
      assert ArrayVerdict(host, s, spec) == FailVerdict(sh.failure);
    }
  }

  /** The first image position that fails decides the verdict: one past the end of the
      array crashes with an IndexError, and one not holding a PNG data URI is rejected
      as such. */
  lemma ImageFailureNotAccepted(host: Host, stdout: string, spec: Spec, xs: seq<JsonValue>, k: nat)
    requires spec.container == JsonArray
    requires HasBracketPair(Text.Strip(stdout))
    requires host.loads(ArraySpan(Text.Strip(stdout)).value) == Some(JArray(xs))
    requires k < |spec.elements| && spec.elements[k].etype == DataUriPng
    requires var arr := CoerceAll(FitLength(xs, spec.length), spec.elements, host.floats);
      && (k >= |arr| || CheckImage(arr[k], Limit(spec.elements[k])).Some?)
      && forall j :: 0 <= j < k && spec.elements[j].etype == DataUriPng ==>
           j < |arr| && CheckImage(arr[j], Limit(spec.elements[j])).None?
    ensures var arr := CoerceAll(FitLength(xs, spec.length), spec.elements, host.floats);
      var r := ValidateAndCoerce(host, stdout, spec);
      && !r.Accepted?
      && (k >= |arr| ==> r == Crashed(IndexOutOfRange))
      && (k < |arr| ==> r == FailVerdict(CheckImage(arr[k], Limit(spec.elements[k])).value))
      && (k < |arr| && !(arr[k].JStr? && Text.StartsWith(arr[k].s, PngPrefix)) ==> r == Rejected(NotPngUri))
  {
    var arr := CoerceAll(FitLength(xs, spec.length), spec.elements, host.floats);
    FirstImageFailure(arr, spec.elements, 0, k);
    ArrayBranch(host, stdout, spec, xs);
  }

  /** A base64 payload that fails to decode at the first failing image position is an
      exception other than ValidationError: the verdict is a crash, not a rejection. */
  lemma DecodeErrorCrashes(host: Host, stdout: string, spec: Spec, xs: seq<JsonValue>, k: nat)
    requires spec.container == JsonArray
    requires HasBracketPair(Text.Strip(stdout))
    requires host.loads(ArraySpan(Text.Strip(stdout)).value) == Some(JArray(xs))
    requires k < |spec.elements| && spec.elements[k].etype == DataUriPng
    requires var arr := CoerceAll(FitLength(xs, spec.length), spec.elements, host.floats);
      && k < |arr| && arr[k].JStr? && Text.StartsWith(arr[k].s, PngPrefix)
      && Base64.Decode(arr[k].s[|PngPrefix|..]).Error?
      && forall j :: 0 <= j < k && spec.elements[j].etype == DataUriPng ==>
           j < |arr| && CheckImage(arr[j], Limit(spec.elements[j])).None?
    ensures ValidateAndCoerce(host, stdout, spec).Crashed?
  {
    var arr := CoerceAll(FitLength(xs, spec.length), spec.elements, host.floats);
    assert CheckImage(arr[k], Limit(spec.elements[k])).value.Crash?;
    ImageFailureNotAccepted(host, stdout, spec, xs, k);
  }

  /** For a JSON-array spec the verdict is the array branch's verdict on the stripped
      output. */
  lemma JsonBranch(host: Host, stdout: string, spec: Spec)
    requires spec.container == JsonArray
    ensures ValidateAndCoerce(host, stdout, spec) == ArrayVerdict(host, Text.Strip(stdout), spec)
  {
  }

  /** Output that is exactly a bracketed JSON array, for a spec without image positions. */
  lemma BracketedArrayAccepted(host: Host, s: string, spec: Spec, xs: seq<JsonValue>)
    requires spec.container == JsonArray
    requires forall e :: e in spec.elements ==> e.etype != DataUriPng
    requires |s| >= 2 && s[0] == '[' && s[|s| - 1] == ']'
    requires host.loads(s) == Some(JArray(xs))
    ensures ValidateAndCoerce(host, s, spec)
         == Accepted(Dumps(JArray(CoerceAll(FitLength(xs, spec.length), spec.elements, host.floats))))
  {
    SpanOfBracketed(s);
    Text.StripStripped(s);
    LengthMismatchNeverRejects(host, s, spec, xs);
  }

  /** Truncation: output such as `["a","b","c"]` against a spec
      of length two comes back as its first two items. */
  lemma TruncateExample(host: Host, s: string)
    requires |s| >= 2 && s[0] == '[' && s[|s| - 1] == ']'
    requires host.loads(s) == Some(JArray([JStr("a"), JStr("b"), JStr("c")]))
    ensures ValidateAndCoerce(host, s, Spec(JsonArray, Some(2), []))
         == Accepted(Dumps(JArray([JStr("a"), JStr("b")])))
  {
    var xs := [JStr("a"), JStr("b"), JStr("c")];
    BracketedArrayAccepted(host, s, Spec(JsonArray, Some(2), []), xs);
    assert FitLength(xs, Some(2)) == [JStr("a"), JStr("b")];
  }

  /** json.dumps writes two plain strings with its default ", " separator. */
  lemma DumpsStrings2(a: string, b: string)
    requires IsPlain(a) && IsPlain(b)
    ensures Dumps(JArray([JStr(a), JStr(b)])) == "[\"" + a + "\", \"" + b + "\"]"
  {
    DumpsPlain(a);
    DumpsPlain(b);
    var xs := [JStr(a), JStr(b)];
    assert xs[1..] == [JStr(b)];
    assert DumpsItems(xs) == Dumps(JStr(a)) + ", " + Dumps(JStr(b));
  }

  /** Padding: output such as `["a"]` against a spec of three strings is
      padded with "N/A". */
  lemma PadExample(host: Host, s: string)
    requires |s| >= 2 && s[0] == '[' && s[|s| - 1] == ']'
    requires host.loads(s) == Some(JArray([JStr("a")]))
    ensures ValidateAndCoerce(host, s, Spec(JsonArray, Some(3), [StringElement, StringElement, StringElement]))
         == Accepted(Dumps(JArray([JStr("a"), JStr(Placeholder), JStr(Placeholder)])))
  {
    var spec := Spec(JsonArray, Some(3), [StringElement, StringElement, StringElement]);
    PadStrings(host.floats);
    assert forall e :: e in spec.elements ==> e == StringElement;
    BracketedArrayAccepted(host, s, spec, [JStr("a")]);
  }

  /** One string padded to three string positions. */
  lemma PadStrings(ops: FloatOps)
    ensures CoerceAll(FitLength([JStr("a")], Some(3)), [StringElement, StringElement, StringElement], ops)
         == [JStr("a"), JStr(Placeholder), JStr(Placeholder)]
  {
    PadOne(JStr("a"));
    StringsStayStrings([JStr("a"), JStr(Placeholder), JStr(Placeholder)],
                       [StringElement, StringElement, StringElement], ops);
  }

  lemma PadOne(x: JsonValue)
    ensures FitLength([x], Some(3)) == [x, JStr(Placeholder), JStr(Placeholder)]
  {
    var arr := FitLength([x], Some(3));
    assert arr[0] == x && arr[1] == JStr(Placeholder) && arr[2] == JStr(Placeholder);
  }

  /** Strings coerced to strings come out unchanged. */
  lemma StringsStayStrings(arr: seq<JsonValue>, elems: seq<ElementSpec>, ops: FloatOps)
    requires forall k :: 0 <= k < |elems| ==> elems[k].etype == StringType
    requires forall k :: 0 <= k < |arr| ==> arr[k].JStr?
    ensures CoerceAll(arr, elems, ops) == arr
  {
    var r := CoerceAll(arr, elems, ops);
    forall k | 0 <= k < |arr| ensures r[k] == arr[k] {
      if |elems| > 0 && |elems| == |arr| {
        assert r[k] == CoerceValue(arr[k], elems[k], ops);
      }
    }
  }
}
