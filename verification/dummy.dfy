// make_dummy_answer: a placeholder answer that has the shape a spec asks for.

module Dummy {
  import opened Wrappers
  import opened Bytes
  import opened Json
  import opened FormatSpec
  import Text
  import Base64
  import Validator

  /** `_tiny_png_data_uri()`: the PNG the imaging library writes for one transparent
      pixel, as a base64 data URI. The PNG's bytes are an input of the model. */
  function TinyPngUri(png: seq<byte>): (u: string)
    ensures Text.StartsWith(u, Validator.PngPrefix)
    ensures Validator.UriPayload(u) == Base64.Encode(png)
  {
    var u := Validator.PngPrefix + Base64.Encode(png);
    assert u[..|Validator.PngPrefix|] == Validator.PngPrefix;
    u
  }

  /** The elements the dummy is built from: the spec's own when it lists any (its
      length is then ignored), otherwise `length or 1` plain strings. */
  function DummyElements(spec: Spec): seq<ElementSpec> {
    if |spec.elements| > 0 then spec.elements
    else seq(OrDefault(spec.length, 1), _ => StringElement)
  }

  /** The placeholder for one element. A float placeholder is 0.0 whether or not
      decimals are named: formatting 0.0 to any number of places and reading the text
      back gives 0.0 again. */
  function PlaceholderFor(e: ElementSpec, png: seq<byte>): JsonValue {
    match e.etype
    case StringType => JStr(Validator.Placeholder)
    case IntType => JInt(0)
    case FloatType => JFloat(Zero)
    case BooleanType => JBool(false)
    case DataUriPng => JStr(TinyPngUri(png))
    case UnknownType(_) => JStr(Validator.Placeholder)
  }

  function DummyItems(spec: Spec, png: seq<byte>): (items: seq<JsonValue>)
    ensures |items| == |DummyElements(spec)|
    ensures forall i :: 0 <= i < |items| ==> items[i] == PlaceholderFor(DummyElements(spec)[i], png)
  {
    var es := DummyElements(spec);
    seq(|es|, i requires 0 <= i < |es| => PlaceholderFor(es[i], png))
  }

  /** `make_dummy_answer(spec)`: "N/A" for anything but a JSON-array spec; otherwise
      the serialised array of one placeholder per element. It never fails. */
  function MakeDummyAnswer(spec: Spec, png: seq<byte>): (a: string)
    ensures spec.container != JsonArray ==> a == Validator.Placeholder
    ensures spec.container == JsonArray ==> |a| >= 2 && a[0] == '[' && a[|a| - 1] == ']'
  {
    if spec.container == JsonArray then Dumps(JArray(DummyItems(spec, png)))
    else Validator.Placeholder
  }

  // ---------------------------------------------------------------------------
  // Properties

  /** One placeholder per listed element, or `length or 1` of them when none are
      listed; "N/A" for text and unknown containers. */
  lemma DummyShape(spec: Spec, png: seq<byte>)
    ensures spec.container != JsonArray ==> MakeDummyAnswer(spec, png) == Validator.Placeholder
    ensures spec.container == JsonArray ==>
      exists items :: MakeDummyAnswer(spec, png) == Dumps(JArray(items))
        && |items| == (if |spec.elements| > 0 then |spec.elements| else OrDefault(spec.length, 1))
  {
    if spec.container == JsonArray {
      var items := DummyItems(spec, png);
      assert MakeDummyAnswer(spec, png) == Dumps(JArray(items));
    }
  }

  /** Once the spec lists elements, its length plays no part: the dummy has one
      placeholder per element even when the two disagree. */
  lemma DummyIgnoresLength(spec: Spec, length: Option<nat>, png: seq<byte>)
    requires |spec.elements| > 0
    ensures MakeDummyAnswer(spec.(length := length), png) == MakeDummyAnswer(spec, png)
  {
    assert DummyElements(spec.(length := length)) == DummyElements(spec);
  }

  /** A JSON-array spec with neither elements nor a positive length gets a one-item
      array, `["N/A"]`. */
  lemma DummyDefaultsToOne(spec: Spec, png: seq<byte>)
    requires spec.container == JsonArray && spec.elements == []
    requires spec.length.None? || spec.length == Some(0)
    ensures MakeDummyAnswer(spec, png) == "[\"N/A\"]"
  {
    assert DummyElements(spec) == [StringElement];
    var items := DummyItems(spec, png);
    assert items == [JStr(Validator.Placeholder)];
    DumpsPlain(Validator.Placeholder);
    assert DumpsItems(items) == Dumps(JStr(Validator.Placeholder));
    assert MakeDummyAnswer(spec, png) == "[" + "\"" + Validator.Placeholder + "\"" + "]";
  }

  /** Each placeholder already has its element's type: coercion leaves it as it is,
      given that rounding 0.0 gives 0.0. */
  lemma PlaceholderCoerces(e: ElementSpec, png: seq<byte>, ops: FloatOps)
    requires forall d :: ops.round(Zero, d) == Zero
    ensures Validator.CoerceValue(PlaceholderFor(e, png), e, ops) == PlaceholderFor(e, png)
  {
    if e.etype == FloatType && e.decimals.Some? {
      assert ops.round(Zero, e.decimals.value) == Zero;
    }
  }

  /** The image placeholder passes the image check whenever the PNG fits the limit. */
  lemma TinyPngAccepted(png: seq<byte>, limit: nat)
    requires |png| <= limit
    ensures Validator.CheckImage(JStr(TinyPngUri(png)), limit).None?
  {
    Base64.DecodeEncode(png);
  }

  /** The dummy is an answer the validator accepts unchanged for the same spec, when
      the spec has the shape inference produces, `json.loads` reads the dummy's array
      back, rounding keeps 0.0, and the PNG fits every image limit. */
  lemma DummyValidates(host: Host, spec: Spec, png: seq<byte>)
    requires WellFormed(spec)
    requires spec.container == JsonArray ==>
      host.loads(Dumps(JArray(DummyItems(spec, png)))) == Some(JArray(DummyItems(spec, png)))
    requires forall d :: host.floats.round(Zero, d) == Zero
    requires forall e :: e in spec.elements && e.etype == DataUriPng ==> |png| <= Validator.Limit(e)
    ensures Validator.ValidateAndCoerce(host, MakeDummyAnswer(spec, png), spec)
         == Validator.Accepted(MakeDummyAnswer(spec, png))
  {
    var a := MakeDummyAnswer(spec, png);
    match spec.container
    case FreeText =>
      assert Text.IsStripped(a);
      Text.StripStripped(a);
    case JsonArray =>
      var items := DummyItems(spec, png);
      var es := DummyElements(spec);
      assert Validator.FitLength(items, spec.length) == items by {
        if spec.length.Some? {
          assert items[..spec.length.value] == items;
        }
      }
      assert Validator.CoerceAll(items, spec.elements, host.floats) == items by {
        if |spec.elements| > 0 && |spec.elements| == |items| {
          forall i | 0 <= i < |items|
            ensures Validator.CoerceValue(items[i], spec.elements[i], host.floats) == items[i]
          {
            PlaceholderCoerces(es[i], png, host.floats);
          }
        }
      }
      assert Validator.ImagesOk(items, spec.elements) by {
        forall i | 0 <= i < |spec.elements| && spec.elements[i].etype == DataUriPng
          ensures i < |items| && Validator.CheckImage(items[i], Validator.Limit(spec.elements[i])).None?
        {
          assert spec.elements[i] in spec.elements;
          TinyPngAccepted(png, Validator.Limit(spec.elements[i]));
        }
      }
      Validator.ShapeStable(host, spec, items);
      Validator.SpanOfDumpedArray(items);
      Text.StripStripped(a);
  }
}
